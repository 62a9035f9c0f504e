/** The committed state of every generation, over all runs, torn commits included: what
    the stores were right after each publishing commit, and when they still are that. */
module Generations {
  import opened Rows
  import opened Engine
  import opened EngineInvariant
  import opened Snapshots
  import opened Effects
  import opened Replay

  /** The engine with the stores each generation started with and everything drained. */
  datatype History = History(st: State, states: seq<seq<Store>>, drained: seq<Delta>)

  function Opened(stores: seq<Store>, queueLimit: nat, retentionLimit: nat): History {
    History(Open(stores, queueLimit, retentionLimit), [stores], [])
  }

  function Follow(h: History, c: Command): History {
    var (st, outcome) := Step(h.st, c);
    History(st,
            if PublishesBatch(h.st, c) then h.states + [st.stores] else h.states,
            if outcome.Drained? then h.drained + outcome.deltas else h.drained)
  }

  function FollowAll(h: History, commands: seq<Command>): History
    decreases |commands|
  {
    if commands == [] then h else FollowAll(Follow(h, commands[0]), commands[1..])
  }

  ghost predicate SameTables(a: seq<Store>, b: seq<Store>) {
    |a| == |b| && forall t :: 0 <= t < |a| ==> a[t].table == b[t].table
  }

  ghost predicate HistoryOk(h: History) {
    && Inv(h.st)
    && |h.states| == h.st.sequence + 1
    && forall g :: 0 <= g < |h.states| ==> StoresOk(h.states[g]) && SameTables(h.states[g], h.st.stores)
  }

  // The stores as the last publishing commit left them, or as they were opened.
  function Recorded(h: History): seq<Store>
    requires h.states != []
  {
    h.states[|h.states| - 1]
  }

  /** Nothing has changed the stores since the last publishing commit. */
  predicate Intact(h: History) {
    h.states != [] && h.st.stores == Recorded(h)
  }

  // ---- What a step does to the stores ---------------------------------------

  lemma CommitSameTables(st: State, sid: nat)
    requires Inv(st)
    ensures SameTables(st.stores, CommitStep(st, sid).0.stores)
  {
    hide Inv, PublishAll, RetainCurrent, RecordAll, Cells, StoresOk, EntriesOk, Release;
    if SessionOf(st, sid).active {
      SessionEntries(st, sid);
      PublishKeeps(st.stores, SessionOf(st, sid).txs);
    }
  }

  lemma StepSameTables(st: State, c: Command)
    requires Inv(st)
    ensures SameTables(st.stores, Step(st, c).0.stores)
  {
    hide Inv, Step;
    if c.Commit? {
      CommitSameTables(st, c.sid);
      StepIsCommit(st, c.sid);
    } else {
      OtherStepsPublishNothing(st, c);
    }
  }

  lemma InvStores(st: State)
    requires Inv(st)
    ensures StoresOk(st.stores)
  {}

  lemma FollowKeeps(h: History, c: Command)
    requires HistoryOk(h)
    ensures HistoryOk(Follow(h, c))
    ensures h.states <= Follow(h, c).states
    ensures PublishesBatch(h.st, c) ==> Intact(Follow(h, c))
  {
    hide Inv, Step, StoresOk, PublishesBatch;
    StepKeeps(h.st, c);
    InvStores(Step(h.st, c).0);
    StepSameTables(h.st, c);
    BatchAdvances(h.st, c);
  }

  /** Every run keeps the record of the generations' states, and only ever adds to it. */
  lemma {:induction false} RunsKeepHistory(h: History, commands: seq<Command>)
    requires HistoryOk(h)
    ensures HistoryOk(FollowAll(h, commands)) && h.states <= FollowAll(h, commands).states
    decreases |commands|
  {
    hide HistoryOk, Step, Follow;
    if commands != [] {
      FollowKeeps(h, commands[0]);
      RunsKeepHistory(Follow(h, commands[0]), commands[1..]);
    }
  }

  lemma {:induction false} FollowRuns(h: History, commands: seq<Command>)
    ensures FollowAll(h, commands).st == Run(h.st, commands)
    decreases |commands|
  {
    hide Step;
    if commands != [] { FollowRuns(Follow(h, commands[0]), commands[1..]); }
  }

  lemma {:induction false} FollowLast(h: History, commands: seq<Command>, c: Command)
    ensures FollowAll(h, commands + [c]) == Follow(FollowAll(h, commands), c)
    decreases |commands|
  {
    hide Follow;
    if commands == [] {
      assert commands + [c] == [c] && [c][1..] == [];
    } else {
      assert (commands + [c])[1..] == commands[1..] + [c];
      FollowLast(Follow(h, commands[0]), commands[1..], c);
    }
  }

  lemma OpenedOk(stores: seq<Store>, queueLimit: nat, retentionLimit: nat)
    requires StoresOk(stores)
    ensures HistoryOk(Opened(stores, queueLimit, retentionLimit)) && Intact(Opened(stores, queueLimit, retentionLimit))
  {
    OpenInv(stores, queueLimit, retentionLimit);
  }

  // Only a publishing commit and a torn one touch the stores.
  lemma QuietStores(st: State, c: Command)
    requires Inv(st) && !PublishesBatch(st, c) && !Torn(st, c)
    ensures Step(st, c).0.stores == st.stores
  {
    hide Inv, Step, Tears;
    if c.Commit? {
      CommitOutcomes(st, c.sid);
      StepIsCommit(st, c.sid);
    } else {
      OtherStepsPublishNothing(st, c);
    }
  }

  /** What takes the stores away from their generation's state: a step that is not a
      publishing commit leaves intact stores intact if and only if it is harmless. */
  lemma IntactExactly(h: History, c: Command)
    requires HistoryOk(h) && Intact(h) && !PublishesBatch(h.st, c)
    ensures Intact(Follow(h, c)) <==> Harmless(h.st, c)
  {
    hide Inv, Step, Tears, PublishAll, Silent, PublishesBatch, StoresOk, CommitStep;
    if Torn(h.st, c) {
      TornCommitLeaves(h.st, c.sid);
      TornIsActive(h.st, c.sid);
      SessionEntries(h.st, c.sid);
      BatchChangesNothingExactly(h.st.stores, SessionOf(h.st, c.sid).txs);
      StepIsCommit(h.st, c.sid);
    } else {
      QuietStores(h.st, c);
    }
  }

  lemma TornIsActive(st: State, sid: nat)
    requires Tears(st, sid)
    ensures SessionOf(st, sid).active
  {}

  /** The stores are intact at every point of the run. */
  predicate IntactThroughout(h: History, commands: seq<Command>)
    decreases |commands|
  {
    Intact(h) && (commands != [] ==> IntactThroughout(Follow(h, commands[0]), commands[1..]))
  }

  lemma PublishingIsHarmless(st: State, c: Command)
    requires Inv(st) && PublishesBatch(st, c)
    ensures Harmless(st, c)
  {
    hide Inv, Tears, Silent;
    if Tears(st, c.sid) {
      TornCommitLeaves(st, c.sid);
      StepIsCommit(st, c.sid);
    }
  }

  /** At every point of a run the stores are what their generation was published as if and
      only if every step of the run is harmless. */
  lemma {:induction false} IntactRunsExactly(h: History, commands: seq<Command>)
    requires HistoryOk(h) && Intact(h)
    ensures IntactThroughout(h, commands) <==> AllHarmless(h.st, commands)
    decreases |commands|
  {
    if commands != [] {
      var c := commands[0];
      FollowKeeps(h, c);
      if PublishesBatch(h.st, c) { PublishingIsHarmless(h.st, c); } else { IntactExactly(h, c); }
      hide HistoryOk, Intact, Harmless, Step, PublishesBatch;
      if Harmless(h.st, c) {
        IntactRunsExactly(Follow(h, c), commands[1..]);
      } else {
        assert !IntactThroughout(Follow(h, c), commands[1..]);
      }
    }
  }

  // ---- Harmless runs -------------------------------------------------------

  ghost predicate Replays(h: History, w: World) {
    && Serializable(w) && h.st == w.st
    && |h.states| == |w.log| + 1
    && forall g :: 0 <= g <= |w.log| ==> h.states[g] == Serial(w.origin, w.log[..g])
  }

  lemma ReplayStep(h: History, w: World, c: Command)
    requires Replays(h, w) && Harmless(w.st, c)
    ensures Replays(Follow(h, c), Advance(w, c))
  {
    hide Serializable, Step, Serial, Harmless, PublishesBatch;
    StepSerialExactly(w, c);
    var h1, w1 := Follow(h, c), Advance(w, c);
    forall g | 0 <= g <= |w1.log| ensures h1.states[g] == Serial(w1.origin, w1.log[..g]) {
      if g <= |w.log| {
        assert w1.log[..g] == w.log[..g];
      } else {
        assert w1.log[..g] == w1.log;
        SerialStores(w1);
      }
    }
  }

  lemma SerialStores(w: World)
    requires Serializable(w)
    ensures w.st.stores == Serial(w.origin, w.log)
  {}

  /** In a run of harmless steps the state of every generation is the serial replay of the
      batches published up to it, and the stores are always intact. */
  lemma {:induction false} StatesAreReplays(h: History, w: World, commands: seq<Command>)
    requires Replays(h, w) && AllHarmless(h.st, commands)
    ensures Replays(FollowAll(h, commands), Play(w, commands)) && Intact(FollowAll(h, commands))
    decreases |commands|
  {
    hide Serializable, Step, Serial, Harmless, PublishesBatch;
    if commands == [] {
      SerialStores(w);
      assert w.log[..|w.log|] == w.log;
    } else {
      ReplayStep(h, w, commands[0]);
      StatesAreReplays(Follow(h, commands[0]), Advance(w, commands[0]), commands[1..]);
    }
  }

  lemma OpenedReplays(stores: seq<Store>, queueLimit: nat, retentionLimit: nat)
    requires StoresOk(stores)
    ensures Replays(Opened(stores, queueLimit, retentionLimit), Start(stores, queueLimit, retentionLimit))
  {
    StartIsSerializable(stores, queueLimit, retentionLimit);
  }
}
