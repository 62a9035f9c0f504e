/** When the index of committed vectors stays current, step by step: only a torn commit can
    take it away from the committed vectors, by writing one the index does not hold. */
module VectorIndex {
  import opened Values
  import opened Rows
  import Tx = Transactions
  import opened Engine
  import opened EngineInvariant
  import opened Snapshots
  import opened Effects
  import opened Replay
  import opened Generations
  import opened VectorOverlay
  import opened VectorWrites

  // ---- The part of a batch that is published --------------------------------

  lemma {:induction false} ReachedElsewhere(a: seq<Store>, b: seq<Store>, txs: seq<TableTx>)
    requires |a| == |b|
    requires forall i :: 0 <= i < |txs| ==> txs[i].table < |a| && a[txs[i].table] == b[txs[i].table]
    ensures Reached(a, txs) == Reached(b, txs)
  {
    hide CanPublish;
    if txs != [] {
      assert CanPublish(a, txs[0]) == CanPublish(b, txs[0]) by { SameStoreSameGuard(a, b, txs[0]); }
      ReachedElsewhere(a, b, txs[1..]);
    }
  }

  lemma SameStoreSameGuard(a: seq<Store>, b: seq<Store>, e: TableTx)
    requires e.table < |a| == |b| && a[e.table] == b[e.table]
    ensures CanPublish(a, e) == CanPublish(b, e)
  {}

  lemma ReachedCons(stores: seq<Store>, txs: seq<TableTx>)
    requires txs != [] && forall i :: 0 <= i < |txs| ==> txs[i].table < |stores|
    requires CanPublish(stores, txs[0])
    ensures Reached(stores, txs) == Reached(stores, txs[1..]) + 1
  {
    hide CanPublish;
  }

  lemma FrontCons(txs: seq<TableTx>, n: nat)
    requires txs != [] && n < |txs|
    ensures txs[..n + 1][0] == txs[0] && txs[..n + 1][1..] == txs[1..][..n]
  {}

  lemma PublishFirst(stores: seq<Store>, txs: seq<TableTx>)
    requires txs != [] && txs[0].table < |stores| && Tx.Publish(txs[0].tx, stores[txs[0].table]).Ok?
    ensures var s := Tx.Publish(txs[0].tx, stores[txs[0].table]).value;
            PublishAll(stores, txs).stores == PublishAll(stores[txs[0].table := s], txs[1..]).stores
  {
    hide Tx.Publish;
  }

  lemma PublishNone(stores: seq<Store>, txs: seq<TableTx>)
    requires txs == [] || (txs[0].table < |stores| && Tx.Publish(txs[0].tx, stores[txs[0].table]).Err?)
    ensures PublishAll(stores, txs).stores == stores
  {
    hide Tx.Publish;
  }

  /** Publishing a batch comes to publishing the entries before the first that cannot be. */
  lemma {:induction false} PublishesReached(stores: seq<Store>, txs: seq<TableTx>)
    requires StoresOk(stores) && EntriesOk(stores, txs)
    ensures PublishAll(stores, txs).stores == PublishAll(stores, txs[..Reached(stores, txs)]).stores
    decreases |txs|
  {
    hide StoresOk, Tx.Publish, Tx.TxOk, CanPublish, Reached, PublishAll;
    if txs == [] {
      assert txs[..Reached(stores, txs)] == txs;
    } else {
      CanPublishExactly(stores, txs[0]);
      if CanPublish(stores, txs[0]) {
        PublishOne(stores, txs);
        var t := txs[0].table;
        var stores1 := stores[t := Tx.Publish(txs[0].tx, stores[t]).value];
        forall i | 0 <= i < |txs[1..]| ensures txs[1..][i].table != t { assert txs[1..][i] == txs[i + 1]; }
        ReachedElsewhere(stores, stores1, txs[1..]);
        ReachedCons(stores, txs);
        FrontCons(txs, Reached(stores, txs[1..]));
        PublishesReached(stores1, txs[1..]);
        PublishFirst(stores, txs);
        PublishFirst(stores, txs[..Reached(stores, txs)]);
      } else {
        NoneReached(stores, txs);
        PublishNone(stores, txs);
        PublishNone(stores, []);
      }
    }
  }

  lemma NoneReached(stores: seq<Store>, txs: seq<TableTx>)
    requires txs != [] && (forall i :: 0 <= i < |txs| ==> txs[i].table < |stores|) && !CanPublish(stores, txs[0])
    ensures txs[..Reached(stores, txs)] == []
  {}

  lemma ReachedClean(stores: seq<Store>, txs: seq<TableTx>)
    requires StoresOk(stores) && EntriesOk(stores, txs)
    ensures CleanBatch(stores, txs[..Reached(stores, txs)])
  {
    hide StoresOk, Tx.TxOk, CanPublish;
  }

  // ---- One step -------------------------------------------------------------

  /** Every vector the entries write is already in the index, in its cell and under the
      current generation. */
  ghost predicate Known(h: History, txs: seq<TableTx>) {
    forall key, vector :: Writes(h.st.stores, txs, key, vector) ==>
      Indexed(h, key) == Some(Delta(h.st.sequence, key, vector))
  }

  /** The command is no torn commit, or one whose published entries write only vectors the
      index already holds. */
  ghost predicate KeepsIndex(h: History, c: Command) {
    Torn(h.st, c) ==>
      var txs := SessionOf(h.st, c.sid).txs;
      && (forall i :: 0 <= i < |txs| ==> txs[i].table < |h.st.stores|)
      && Known(h, txs[..Reached(h.st.stores, txs)])
  }

  lemma QuietIndex(h: History, c: Command)
    requires HistoryOk(h) && OverlayOk(h) && IndexCurrent(h) && !PublishesBatch(h.st, c) && !Torn(h.st, c)
    ensures IndexCurrent(Follow(h, c))
  {
    hide Inv, Step, OverlayOk, PublishesBatch, Tears, Live, StoresOk, IndexCurrent;
    FollowOverlay(h, c);
    OverlayStates(h);
    QuietStores(h.st, c);
    BatchAdvances(h.st, c);
    IndexCurrentExactly(h);
    IndexCurrentExactly(Follow(h, c));
  }

  lemma PublishedIndex(h: History, c: Command)
    requires HistoryOk(h) && OverlayOk(h) && PublishesBatch(h.st, c)
    ensures IndexCurrent(Follow(h, c))
  {
    hide Inv, Step, OverlayOk, PublishesBatch, Live, StoresOk, IndexCurrent;
    FollowOverlay(h, c);
    FollowKeeps(h, c);
    BatchAdvances(h.st, c);
    IndexCurrentExactly(Follow(h, c));
  }

  lemma TornFollow(h: History, c: Command)
    requires HistoryOk(h) && Torn(h.st, c)
    ensures var txs := SessionOf(h.st, c.sid).txs; var h1 := Follow(h, c);
            && EntriesOk(h.st.stores, txs) && StoresOk(h.st.stores)
            && h1.st.stores == PublishAll(h.st.stores, txs).stores
            && h1.states == h.states && h1.st.sequence == h.st.sequence
  {
    hide Inv, Step, CommitStep, Tears, PublishAll, StoresOk, EntriesOk;
    TornCommitLeaves(h.st, c.sid);
    TornIsActive(h.st, c.sid);
    SessionEntries(h.st, c.sid);
    StepIsCommit(h.st, c.sid);
  }

  lemma TornIndexExactly(h: History, c: Command)
    requires HistoryOk(h) && OverlayOk(h) && IndexCurrent(h) && Torn(h.st, c)
    ensures IndexCurrent(Follow(h, c)) <==> KeepsIndex(h, c)
  {
    hide HistoryOk, Follow, OverlayOk, Tears, Live, StoresOk, IndexCurrent, PublishAll, Writes, Indexed, CleanBatch,
      Reached;
    var txs, h1 := SessionOf(h.st, c.sid).txs, Follow(h, c);
    TornFollow(h, c);
    FollowOverlay(h, c);
    OverlayStates(h);
    OverlayStates(h1);
    var reached := txs[..Reached(h.st.stores, txs)];
    PublishesReached(h.st.stores, txs);
    ReachedClean(h.st.stores, txs);
    IndexCurrentExactly(h);
    IndexCurrentExactly(h1);
    forall key, vector
      ensures Live(h1.st.stores, key, vector) <==> Lands(h.st.stores, reached, key, vector)
      ensures Indexed(h, key) == Some(Delta(h.st.sequence, key, vector)) <==>
              h.st.sequence > 0 && Live(Recorded(h), key, vector)
    {
      PublishedCells(h.st.stores, reached, key, vector);
      IndexHoldsLastPublished(h, key, vector);
    }
    hide TouchedIn;
    if Known(h, reached) {
      forall key, vector | Live(h1.st.stores, key, vector)
        ensures h1.st.sequence > 0 && Live(Recorded(h1), key, vector)
      {
        assert Lands(h.st.stores, reached, key, vector);
      }
    }
    if NoNewVectors(h1) {
      forall key, vector | Writes(h.st.stores, reached, key, vector)
        ensures Indexed(h, key) == Some(Delta(h.st.sequence, key, vector))
      {
        assert Lands(h.st.stores, reached, key, vector);
      }
    }
  }

  /** From a current index, a step leaves it current if and only if it is no torn commit,
      or one whose published entries write only vectors the index already holds. */
  lemma IndexStepExactly(h: History, c: Command)
    requires HistoryOk(h) && OverlayOk(h) && IndexCurrent(h)
    ensures IndexCurrent(Follow(h, c)) <==> KeepsIndex(h, c)
  {
    hide HistoryOk, Follow, OverlayOk, Tears, IndexCurrent, Known, Reached, PublishesBatch;
    if Torn(h.st, c) {
      TornIndexExactly(h, c);
    } else if PublishesBatch(h.st, c) {
      PublishedIndex(h, c);
    } else {
      QuietIndex(h, c);
    }
  }

  // ---- Whole runs -----------------------------------------------------------

  /** The index is current at every point of the run. */
  ghost predicate CurrentThroughout(h: History, commands: seq<Command>)
    decreases |commands|
  {
    IndexCurrent(h) && (commands != [] ==> CurrentThroughout(Follow(h, commands[0]), commands[1..]))
  }

  ghost predicate AllKeepIndex(h: History, commands: seq<Command>)
    decreases |commands|
  {
    commands == [] || (KeepsIndex(h, commands[0]) && AllKeepIndex(Follow(h, commands[0]), commands[1..]))
  }

  /** Once the index is current, it stays so throughout a run if and only if every torn
      commit of the run publishes only vectors the index already holds. */
  lemma {:induction false} IndexRunsExactly(h: History, commands: seq<Command>)
    requires HistoryOk(h) && OverlayOk(h) && IndexCurrent(h)
    ensures CurrentThroughout(h, commands) <==> AllKeepIndex(h, commands)
    decreases |commands|
  {
    hide HistoryOk, Follow, OverlayOk, IndexCurrent, KeepsIndex;
    if commands != [] {
      IndexStepExactly(h, commands[0]);
      FollowKeeps(h, commands[0]);
      FollowOverlay(h, commands[0]);
      if KeepsIndex(h, commands[0]) {
        IndexRunsExactly(Follow(h, commands[0]), commands[1..]);
      } else {
        assert !CurrentThroughout(Follow(h, commands[0]), commands[1..]);
      }
    }
  }
}
