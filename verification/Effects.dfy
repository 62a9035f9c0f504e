/** What publishing changes: when a transaction leaves its store exactly as it was, and
    when the part of a batch that gets published leaves all stores as they were. Both
    are read off the staged rows and the live stores before the commit. */
module Effects {
  import opened Values
  import opened Catalog
  import opened Rows
  import Tx = Transactions
  import opened Engine
  import opened EngineInvariant
  import opened Snapshots

  /** The transaction would change nothing: its updates repeat the live rows, and its
      inserts repeat, id for id, the table's last rows, which are the rows it deletes. */
  predicate NoEffect(tx: Tx.Tx, s: Store) {
    && (forall i :: 0 <= i < |tx.updates| ==> tx.updates[i] in s.rows)
    && |tx.inserts| <= |s.rows|
    && s.rows[|s.rows| - |tx.inserts|..] == tx.inserts
    && (forall i :: 0 <= i < |tx.inserts| ==> tx.inserts[i].id in tx.deletes)
    && (forall i :: 0 <= i < |tx.deletes| ==> HasId(tx.inserts, tx.deletes[i]))
  }

  // ---- Views that are prefixes ----------------------------------------------

  ghost predicate SplitsAt(rows: seq<Row>, dead: set<nat>, updated: map<nat, seq<Value>>, m: nat) {
    && m <= |rows|
    && (forall i :: 0 <= i < m ==>
          rows[i].id !in dead && (rows[i].id in updated ==> updated[rows[i].id] == rows[i].values))
    && (forall i :: m <= i < |rows| ==> rows[i].id in dead)
  }

  lemma {:induction false} AllDead(rows: seq<Row>, dead: set<nat>, updated: map<nat, seq<Value>>)
    requires forall i :: 0 <= i < |rows| ==> rows[i].id in dead
    ensures View(rows, dead, updated) == []
  {
    if rows != [] { AllDead(rows[1..], dead, updated); }
  }

  lemma {:induction false} SplitView(rows: seq<Row>, dead: set<nat>, updated: map<nat, seq<Value>>, m: nat)
    requires SplitsAt(rows, dead, updated, m)
    ensures View(rows, dead, updated) == rows[..m]
    decreases |rows|
  {
    if m == 0 {
      AllDead(rows, dead, updated);
    } else {
      forall i | 0 <= i < |rows[1..]| ensures rows[1..][i] == rows[i + 1] {}
      SplitView(rows[1..], dead, updated, m - 1);
      assert [rows[0]] + rows[1..][..m - 1] == rows[..m];
    }
  }

  lemma ViewSplits(rows: seq<Row>, dead: set<nat>, updated: map<nat, seq<Value>>, m: nat)
    requires UniqueIds(rows) && m <= |rows| && View(rows, dead, updated) == rows[..m]
    ensures SplitsAt(rows, dead, updated, m)
  {
    forall i | 0 <= i < m
      ensures rows[i].id !in dead && (rows[i].id in updated ==> updated[rows[i].id] == rows[i].values)
    {
      ViewRows(rows, dead, updated, i);
    }
    forall i | m <= i < |rows| ensures rows[i].id in dead {
      ViewIds(rows, dead, updated, rows[i].id);
      assert HasId(rows, rows[i].id);
      assert !HasId(rows[..m], rows[i].id);
    }
  }

  // ---- One transaction ------------------------------------------------------

  lemma NoEffectSplits(tx: Tx.Tx, s: Store)
    requires Tx.TxOk(tx, s.table) && StoreOk(s) && NoEffect(tx, s)
    ensures SplitsAt(s.rows, Tx.DeadIds(tx.deletes), Tx.Replacements(tx.updates), |s.rows| - |tx.inserts|)
  {
    StoreIds(s);
    hide Tx.TxOk, StoreOk, Tx.Replacements, HasId;
    var m := |s.rows| - |tx.inserts|;
    Tx.ReplacementKeys(tx.updates);
    assert forall i :: 0 <= i < |tx.inserts| ==> s.rows[m + i] == s.rows[m..][i];
    forall i | m <= i < |s.rows| ensures s.rows[i].id in tx.deletes {
      assert s.rows[i] == tx.inserts[i - m];
    }
    forall i | 0 <= i < m
      ensures s.rows[i].id !in tx.deletes
      ensures var updated := Tx.Replacements(tx.updates);
              s.rows[i].id in updated ==> updated[s.rows[i].id] == s.rows[i].values
    {
      LastRowsOnly(tx, s, m, i);
      UpdateIsRepeated(tx, s, i);
    }
  }

  lemma UpdateIsRepeated(tx: Tx.Tx, s: Store, i: nat)
    requires UniqueIds(s.rows) && i < |s.rows| && forall k :: 0 <= k < |tx.updates| ==> tx.updates[k] in s.rows
    ensures var updated := Tx.Replacements(tx.updates);
            s.rows[i].id in updated ==> updated[s.rows[i].id] == s.rows[i].values
  {
    Tx.ReplacementKeys(tx.updates);
    var updated := Tx.Replacements(tx.updates);
    if s.rows[i].id in updated {
      var u := Row(s.rows[i].id, updated[s.rows[i].id]);
      assert u in tx.updates;
      var k :| 0 <= k < |s.rows| && s.rows[k] == u;
      assert k == i;
    }
  }

  lemma LastRowsOnly(tx: Tx.Tx, s: Store, m: nat, i: nat)
    requires UniqueIds(s.rows) && i < m <= |s.rows| && |s.rows| - m == |tx.inserts|
    requires forall k :: 0 <= k < |tx.inserts| ==> s.rows[m + k] == tx.inserts[k]
    requires forall k :: 0 <= k < |tx.deletes| ==> HasId(tx.inserts, tx.deletes[k])
    ensures s.rows[i].id !in tx.deletes
  {
    forall k | 0 <= k < |tx.deletes| ensures tx.deletes[k] != s.rows[i].id {
      var j :| 0 <= j < |tx.inserts| && tx.inserts[j].id == tx.deletes[k];
      assert s.rows[m + j].id == tx.deletes[k];
    }
  }

  lemma InsertBelow(s: Store, r: Row)
    requires r.id < s.nextId && InsertWithId(s, r.id, r.values).Ok?
    ensures InsertWithId(s, r.id, r.values) == Ok(s.(rows := s.rows + [r]))
  {}

  lemma TailStaged(inserts: seq<Row>, table: TableDef)
    requires inserts != [] && Tx.RowsOk(inserts, table) && Tx.Increasing(inserts)
    ensures Tx.RowsOk(inserts[1..], table) && Tx.Increasing(inserts[1..])
  {
    hide CheckRow;
  }

  lemma NothingInserted(s: Store)
    ensures Tx.ApplyInserts(s, []) == Ok(s)
  {}

  lemma {:induction false} InsertsBelowKeepNext(s: Store, inserts: seq<Row>)
    requires StoreOk(s) && Tx.RowsOk(inserts, s.table) && Tx.Increasing(inserts) && Tx.NoneTaken(s.rows, inserts)
    requires forall i :: 0 <= i < |inserts| ==> inserts[i].id < s.nextId
    ensures Tx.ApplyInserts(s, inserts) == Ok(s.(rows := s.rows + inserts))
    decreases |inserts|
  {
    hide StoreOk, HasId, Tx.ApplyInserts, Tx.Appends, InsertWithId, Tx.RowsOk, Tx.Increasing;
    if inserts == [] {
      NothingInserted(s);
      assert s.rows + [] == s.rows;
    } else {
      var s1 := Tx.InsertsHead(s, inserts);
      Tx.TakenByHead(s.rows, inserts);
      InsertBelow(s, inserts[0]);
      TailStaged(inserts, s.table);
      hide Tx.NoneTaken;
      InsertsBelowKeepNext(s1, inserts[1..]);
      assert s.rows + [inserts[0]] + inserts[1..] == s.rows + inserts;
    }
  }

  // The parts of a well-formed store and transaction the proofs below need.
  lemma StoreIds(s: Store)
    requires StoreOk(s)
    ensures UniqueIds(s.rows) && forall i :: 0 <= i < |s.rows| ==> s.rows[i].id < s.nextId
  {}

  lemma StagedInserts(tx: Tx.Tx, table: TableDef)
    requires Tx.TxOk(tx, table)
    ensures Tx.Increasing(tx.inserts) && Tx.RowsOk(tx.inserts, table)
  {}

  lemma EditedShape(tx: Tx.Tx, s: Store)
    ensures var e := Tx.Edited(tx, s);
            e.table == s.table && e.nextId == s.nextId
            && e.rows == View(s.rows, Tx.DeadIds(tx.deletes), Tx.Replacements(tx.updates))
            && e.(rows := s.rows) == s
  {}

  // The last rows' ids are below the next id and not among the rows before them.
  lemma LastRowsFree(s: Store, last: seq<Row>)
    requires StoreOk(s) && |last| <= |s.rows| && s.rows[|s.rows| - |last|..] == last
    ensures forall i :: 0 <= i < |last| ==> last[i].id < s.nextId
    ensures Tx.NoneTaken(s.rows[..|s.rows| - |last|], last)
  {
    StoreIds(s);
    hide StoreOk;
    var m := |s.rows| - |last|;
    forall i | 0 <= i < |last| ensures last[i].id < s.nextId && !HasId(s.rows[..m], last[i].id) {
      assert s.rows[m..][i] == s.rows[m + i];
    }
  }

  lemma NoEffectPublishes(tx: Tx.Tx, s: Store)
    requires Tx.TxOk(tx, s.table) && StoreOk(s) && tx.state.Active? && Tx.RowsStillLive(tx, s) && NoEffect(tx, s)
    ensures Tx.Publish(tx, s) == Ok(s)
  {
    hide Tx.TxOk, StoreOk, Tx.RowsStillLive, Tx.Publish, Tx.Edited, SplitsAt, View, Tx.Replacements, Tx.ApplyInserts,
      HasId, UniqueIds, Tx.Appends;
    var m := |s.rows| - |tx.inserts|;
    var e := Tx.Edited(tx, s);
    LastRowsFree(s, tx.inserts);
    StagedInserts(tx, s.table);
    EditedShape(tx, s);
    NoEffectSplits(tx, s);
    SplitView(s.rows, Tx.DeadIds(tx.deletes), Tx.Replacements(tx.updates), m);
    Tx.CommitMeaning(tx, s);
    Tx.EditedOk(tx, s);
    hide NoEffect;
    InsertsBelowKeepNext(e, tx.inserts);
    assert s.rows[..m] + s.rows[m..] == s.rows;
  }

  // Publishing gave the same rows back: the inserts are the last rows again.
  lemma SameRowsInserts(tx: Tx.Tx, s: Store)
    requires Tx.TxOk(tx, s.table) && StoreOk(s) && tx.state.Active? && Tx.Publish(tx, s) == Ok(s)
    ensures |tx.inserts| <= |s.rows| && Tx.Edited(tx, s).rows == s.rows[..|s.rows| - |tx.inserts|]
    ensures s.rows[|s.rows| - |tx.inserts|..] == tx.inserts
  {
    hide Tx.TxOk, StoreOk, Tx.RowsStillLive, Tx.Publish, Tx.Edited, View, Tx.Replacements, Tx.ApplyInserts;
    StoreIds(s);
    StagedInserts(tx, s.table);
    EditedShape(tx, s);
    Tx.CommitMeaning(tx, s);
    Tx.EditedOk(tx, s);
    var e := Tx.Edited(tx, s);
    var m := |e.rows|;
    forall i | 0 <= i < |tx.inserts| ensures s.rows[m + i] == tx.inserts[i] {
      Tx.InsertIdKept(e, tx.inserts, i);
    }
  }

  lemma SplitMeansNoEffect(tx: Tx.Tx, s: Store, m: nat)
    requires Tx.TxOk(tx, s.table) && Tx.RowsStillLive(tx, s)
    requires m + |tx.inserts| == |s.rows| && s.rows[m..] == tx.inserts
    requires SplitsAt(s.rows, Tx.DeadIds(tx.deletes), Tx.Replacements(tx.updates), m)
    ensures NoEffect(tx, s)
  {
    forall i | 0 <= i < |tx.inserts| ensures tx.inserts[i].id in tx.deletes {
      assert s.rows[m + i] == s.rows[m..][i];
    }
    hide SplitsAt, Tx.TxOk, Tx.RowsStillLive;
    forall i | 0 <= i < |tx.updates| ensures tx.updates[i] in s.rows {
      UpdateRepeats(tx, s, m, i);
    }
    forall i | 0 <= i < |tx.deletes| ensures HasId(tx.inserts, tx.deletes[i]) {
      DeleteIsLast(tx, s, m, i);
    }
  }

  lemma SameRowsRest(tx: Tx.Tx, s: Store)
    requires Tx.TxOk(tx, s.table) && StoreOk(s) && tx.state.Active? && Tx.Publish(tx, s) == Ok(s)
    ensures NoEffect(tx, s)
  {
    hide Tx.Publish, Tx.TxOk, Tx.RowsStillLive, Tx.Edited, View, StoreOk, NoEffect, SplitsAt, UniqueIds, Tx.Appends,
      Tx.Replacements;
    SameRowsInserts(tx, s);
    EditedShape(tx, s);
    Tx.CommitMeaning(tx, s);
    StoreIds(s);
    var m := |s.rows| - |tx.inserts|;
    ViewSplits(s.rows, Tx.DeadIds(tx.deletes), Tx.Replacements(tx.updates), m);
    SplitMeansNoEffect(tx, s, m);
  }

  lemma UpdateRepeats(tx: Tx.Tx, s: Store, m: nat, i: nat)
    requires Tx.TxOk(tx, s.table) && Tx.RowsStillLive(tx, s) && i < |tx.updates|
    requires SplitsAt(s.rows, Tx.DeadIds(tx.deletes), Tx.Replacements(tx.updates), m)
    ensures tx.updates[i] in s.rows
  {
    Tx.ReplacementKeys(tx.updates);
    var id := tx.updates[i].id;
    var updated := Tx.Replacements(tx.updates);
    assert HasId(tx.updates, id);
    assert Row(id, updated[id]) in tx.updates;
    var k :| 0 <= k < |tx.updates| && tx.updates[k] == Row(id, updated[id]);
    assert k == i;
    var j :| 0 <= j < |s.rows| && s.rows[j].id == id;
    assert s.rows[j] == tx.updates[i];
  }

  lemma DeleteIsLast(tx: Tx.Tx, s: Store, m: nat, i: nat)
    requires Tx.RowsStillLive(tx, s) && i < |tx.deletes| && m + |tx.inserts| == |s.rows| && s.rows[m..] == tx.inserts
    requires SplitsAt(s.rows, Tx.DeadIds(tx.deletes), Tx.Replacements(tx.updates), m)
    ensures HasId(tx.inserts, tx.deletes[i])
  {
    var j :| 0 <= j < |s.rows| && s.rows[j].id == tx.deletes[i];
    assert tx.deletes[i] in tx.deletes;
    assert j >= m;
    assert tx.inserts[j - m] == s.rows[j];
  }

  /** Publishing leaves the store exactly as it was, rows, order, ids and next id, if
      and only if the transaction has no effect on it. */
  lemma PublishChangesNothingExactly(tx: Tx.Tx, s: Store)
    requires Tx.TxOk(tx, s.table) && StoreOk(s) && tx.state.Active? && Tx.RowsStillLive(tx, s)
    ensures Tx.Publish(tx, s) == Ok(s) <==> NoEffect(tx, s)
  {
    if NoEffect(tx, s) { NoEffectPublishes(tx, s); }
    if Tx.Publish(tx, s) == Ok(s) { SameRowsRest(tx, s); }
  }

  // ---- A batch --------------------------------------------------------------

  /** How many entries of the batch get published: those before the first that cannot
      be. */
  function Reached(stores: seq<Store>, txs: seq<TableTx>): (n: nat)
    requires forall i :: 0 <= i < |txs| ==> txs[i].table < |stores|
    ensures n <= |txs| && (n < |txs| ==> !CanPublish(stores, txs[n]))
    ensures forall i :: 0 <= i < n ==> CanPublish(stores, txs[i])
    decreases |txs|
  {
    if txs == [] || !CanPublish(stores, txs[0]) then 0
    else
      var rest := Reached(stores, txs[1..]);
      assert forall i :: 0 < i < |txs| ==> txs[i] == txs[1..][i - 1];
      rest + 1
  }

  /** The part of the batch that gets published has no effect. */
  predicate Silent(stores: seq<Store>, txs: seq<TableTx>)
    requires forall i :: 0 <= i < |txs| ==> txs[i].table < |stores|
  {
    forall i :: 0 <= i < Reached(stores, txs) ==> NoEffect(txs[i].tx, stores[txs[i].table])
  }

  lemma SilentCons(stores: seq<Store>, txs: seq<TableTx>)
    requires txs != [] && forall i :: 0 <= i < |txs| ==> txs[i].table < |stores|
    requires CanPublish(stores, txs[0])
    ensures Silent(stores, txs) <==> NoEffect(txs[0].tx, stores[txs[0].table]) && Silent(stores, txs[1..])
  {
    hide NoEffect;
    var n := Reached(stores, txs);
    assert n == Reached(stores, txs[1..]) + 1;
    if Silent(stores, txs) {
      forall i | 0 <= i < n - 1 ensures NoEffect(txs[1..][i].tx, stores[txs[1..][i].table]) {
        assert txs[1..][i] == txs[i + 1];
      }
    }
    if NoEffect(txs[0].tx, stores[txs[0].table]) && Silent(stores, txs[1..]) {
      forall i | 0 <= i < n ensures NoEffect(txs[i].tx, stores[txs[i].table]) {
        if i > 0 { assert txs[i] == txs[1..][i - 1]; }
      }
    }
  }

  /** Publishing a batch, all of it or the part before a conflict, leaves every store
      as it was if and only if that part has no effect. */
  lemma {:induction false} BatchChangesNothingExactly(stores: seq<Store>, txs: seq<TableTx>)
    requires StoresOk(stores) && EntriesOk(stores, txs)
    ensures PublishAll(stores, txs).stores == stores <==> Silent(stores, txs)
    decreases |txs|
  {
    if txs != [] {
      var t := txs[0].table;
      CanPublishExactly(stores, txs[0]);
      hide NoEffect, Silent, StoreOk, Tx.TxOk, Built, Tx.Publish, Tx.RowsStillLive;
      if CanPublish(stores, txs[0]) {
        PublishChangesNothingExactly(txs[0].tx, stores[t]);
        SilentCons(stores, txs);
        PublishOne(stores, txs);
        var s := Tx.Publish(txs[0].tx, stores[t]).value;
        if s == stores[t] {
          assert stores[t := s] == stores;
          BatchChangesNothingExactly(stores, txs[1..]);
        } else {
          forall i | 0 <= i < |txs[1..]| ensures txs[1..][i].table != t {
            assert txs[1..][i] == txs[i + 1];
          }
          PublishLeaves(stores[t := s], txs[1..], t);
        }
      } else {
        NothingReached(stores, txs);
      }
    } else {
      NothingReached(stores, txs);
    }
  }

  lemma NothingReached(stores: seq<Store>, txs: seq<TableTx>)
    requires forall i :: 0 <= i < |txs| ==> txs[i].table < |stores|
    requires txs == [] || !CanPublish(stores, txs[0])
    ensures Silent(stores, txs)
  {}

  /** A transaction opened before the table's last row was committed can delete that row and
      insert it again under its own id: two staged operations, no effect. */
  lemma DeleteAndReinsert(s: Store, before: Store)
    requires StoreOk(s) && s.rows != [] && before.nextId == s.rows[|s.rows| - 1].id
    ensures var last := s.rows[|s.rows| - 1];
            var deleted := Tx.Delete(Tx.Begin(before), s, last.id);
            && deleted.Ok?
            && var inserted := Tx.Insert(deleted.value, s.table, last.values);
               inserted.Ok? && NoEffect(inserted.value, s)
  {
    var last := s.rows[|s.rows| - 1];
    var tx := Tx.Tx(Tx.Active, last.id + 1, [last], [], [last.id]);
    assert HasId(s.rows, last.id);
    assert [] + [last.id] == [last.id] && [] + [last] == [last];
    assert tx.inserts[0].id == last.id && tx.deletes[0] == last.id;
    assert s.rows[|s.rows| - 1..] == [last];
  }
}
