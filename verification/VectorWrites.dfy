/** What a commit writes against what it stamps: the overlay's deltas of a generation are
    the vector writes of its commit exactly when the commit touches every row that
    already held a vector. */
module VectorWrites {
  import opened Values
  import opened Catalog
  import opened Rows
  import Tx = Transactions
  import opened Engine
  import opened EngineInvariant
  import opened Snapshots
  import opened Replay
  import opened VectorOverlay

  // The rows a transaction writes: its updates, and its inserts as they are published.
  ghost function WrittenRows(tx: Tx.Tx, s: Store): seq<Row> {
    var p := Tx.Publish(tx, s);
    if p.Ok? && |Tx.Edited(tx, s).rows| <= |p.value.rows|
    then tx.updates + p.value.rows[|Tx.Edited(tx, s).rows|..] else []
  }

  ghost predicate RowsHold(rows: seq<Row>, id: nat, column: nat, vector: seq<U32>) {
    exists i :: 0 <= i < |rows| && rows[i].id == id && RowHolds(rows[i], column, vector)
  }

  /** The batch writes this vector into this cell. */
  ghost predicate Writes(stores: seq<Store>, txs: seq<TableTx>, key: Key, vector: seq<U32>) {
    key.table < |stores|
    && exists i :: 0 <= i < |txs| && txs[i].table == key.table
         && RowsHold(WrittenRows(txs[i].tx, stores[key.table]), key.row, key.column, vector)
  }

  // ---- One store ------------------------------------------------------------

  predicate Touches(tx: Tx.Tx, id: nat) { id in tx.deletes || HasId(tx.updates, id) }

  // Every row that holds a vector is updated or deleted.
  ghost predicate TouchesVectors(tx: Tx.Tx, s: Store) {
    forall i, column, vector :: 0 <= i < |s.rows| && RowHolds(s.rows[i], column, vector) ==> Touches(tx, s.rows[i].id)
  }

  ghost predicate CleanTx(tx: Tx.Tx, s: Store) {
    Tx.TxOk(tx, s.table) && StoreOk(s) && tx.state.Active? && Tx.RowsStillLive(tx, s)
  }

  // Every row of a published store was written, or was there untouched.
  lemma PublishedRow(tx: Tx.Tx, s: Store, i: nat)
    requires CleanTx(tx, s) && Tx.Publish(tx, s).Ok? && i < |Tx.Publish(tx, s).value.rows|
    ensures var row := Tx.Publish(tx, s).value.rows[i];
            row in WrittenRows(tx, s) || (row in s.rows && !Touches(tx, row.id))
  {
    Tx.CommitMeaning(tx, s);
    Tx.ReplacementKeys(tx.updates);
    var e := Tx.Edited(tx, s).rows;
    var rows := Tx.Publish(tx, s).value.rows;
    if i < |e| {
      assert rows[i] == rows[..|e|][i];
      ViewRows(s.rows, Tx.DeadIds(tx.deletes), Tx.Replacements(tx.updates), i);
    } else {
      assert rows[i] == rows[|e|..][i - |e|];
    }
  }

  // A row that is there untouched stays.
  lemma {:induction false} UntouchedStays(rows: seq<Row>, dead: set<nat>, updated: map<nat, seq<Value>>, r: Row)
    requires r in rows && r.id !in dead && r.id !in updated
    ensures r in View(rows, dead, updated)
  {
    if rows[0] != r {
      assert r in rows[1..];
      UntouchedStays(rows[1..], dead, updated, r);
    }
  }

  lemma {:induction false} UpdatedThere(rows: seq<Row>, dead: set<nat>, updated: map<nat, seq<Value>>, id: nat)
    requires HasId(rows, id) && id !in dead && id in updated
    ensures Row(id, updated[id]) in View(rows, dead, updated)
  {
    HasIdCons(rows, id);
    if rows[0].id != id { UpdatedThere(rows[1..], dead, updated, id); }
  }

  lemma EditedPublished(tx: Tx.Tx, s: Store, r: Row)
    requires CleanTx(tx, s) && r in Tx.Edited(tx, s).rows
    ensures Tx.Publish(tx, s).Ok? && r in Tx.Publish(tx, s).value.rows
  {
    Tx.CommitMeaning(tx, s);
    var e, rows := Tx.Edited(tx, s).rows, Tx.Publish(tx, s).value.rows;
    var i :| 0 <= i < |e| && e[i] == r;
    assert rows[i] == rows[..|e|][i];
  }

  lemma UntouchedPublished(tx: Tx.Tx, s: Store, r: Row)
    requires CleanTx(tx, s) && r in s.rows && !Touches(tx, r.id)
    ensures Tx.Publish(tx, s).Ok? && r in Tx.Publish(tx, s).value.rows
  {
    Tx.ReplacementKeys(tx.updates);
    UntouchedStays(s.rows, Tx.DeadIds(tx.deletes), Tx.Replacements(tx.updates), r);
    EditedPublished(tx, s, r);
  }

  // Everything written is there afterwards.
  lemma WrittenPublished(tx: Tx.Tx, s: Store, r: Row)
    requires CleanTx(tx, s) && r in WrittenRows(tx, s)
    ensures Tx.Publish(tx, s).Ok? && r in Tx.Publish(tx, s).value.rows
  {
    var e, rows := Tx.Edited(tx, s).rows, Tx.Publish(tx, s).value.rows;
    if r in tx.updates {
      UpdateInEdited(tx, s, r);
      EditedPublished(tx, s, r);
    } else {
      assert r in rows[|e|..];
    }
  }

  lemma UpdateInEdited(tx: Tx.Tx, s: Store, r: Row)
    requires CleanTx(tx, s) && r in tx.updates
    ensures r in Tx.Edited(tx, s).rows
  {
    Tx.ReplacementKeys(tx.updates);
    var updated := Tx.Replacements(tx.updates);
    var i :| 0 <= i < |tx.updates| && tx.updates[i] == r;
    assert HasId(tx.updates, r.id);
    var k :| 0 <= k < |tx.updates| && tx.updates[k] == Row(r.id, updated[r.id]);
    assert k == i;
    assert r.id !in tx.deletes;
    UpdatedThere(s.rows, Tx.DeadIds(tx.deletes), updated, r.id);
  }

  // A row that was there untouched is not also written.
  lemma UntouchedUnwritten(tx: Tx.Tx, s: Store, r: Row, w: Row)
    requires CleanTx(tx, s) && r in s.rows && !Touches(tx, r.id) && w in WrittenRows(tx, s)
    ensures w.id != r.id
  {
    Tx.CommitMeaning(tx, s);
    Tx.ReplacementKeys(tx.updates);
    var e, rows := Tx.Edited(tx, s).rows, Tx.Publish(tx, s).value.rows;
    if w in tx.updates {
      var i :| 0 <= i < |tx.updates| && tx.updates[i] == w;
      assert HasId(tx.updates, w.id);
    } else {
      UntouchedStays(s.rows, Tx.DeadIds(tx.deletes), Tx.Replacements(tx.updates), r);
      var i :| 0 <= i < |e| && e[i] == r;
      assert rows[i] == rows[..|e|][i];
      var k :| 0 <= k < |rows[|e|..]| && rows[|e|..][k] == w;
      assert rows[|e| + k] == w;
    }
  }

  ghost predicate SameCells(a: seq<Row>, b: seq<Row>) {
    forall id, column, vector :: RowsHold(a, id, column, vector) <==> RowsHold(b, id, column, vector)
  }

  lemma HoldsIn(rows: seq<Row>, r: Row, column: nat, vector: seq<U32>)
    requires r in rows && RowHolds(r, column, vector)
    ensures RowsHold(rows, r.id, column, vector)
  {
    var i :| 0 <= i < |rows| && rows[i] == r;
  }

  /** The vector cells of a published store: those the transaction wrote and those of the
      rows it did not touch. */
  lemma StoreCells(tx: Tx.Tx, s: Store, id: nat, column: nat, vector: seq<U32>)
    requires CleanTx(tx, s)
    ensures Tx.Publish(tx, s).Ok?
    ensures RowsHold(Tx.Publish(tx, s).value.rows, id, column, vector) <==>
            RowsHold(WrittenRows(tx, s), id, column, vector)
            || (RowsHold(s.rows, id, column, vector) && !Touches(tx, id))
  {
    Tx.CommitMeaning(tx, s);
    var rows, written := Tx.Publish(tx, s).value.rows, WrittenRows(tx, s);
    hide Tx.Publish, WrittenRows, CleanTx, RowHolds, Tx.RowsStillLive, Touches, StoreOk, Tx.TxOk;
    if i :| 0 <= i < |rows| && rows[i].id == id && RowHolds(rows[i], column, vector) {
      PublishedRow(tx, s, i);
      HoldsIn(if rows[i] in written then written else s.rows, rows[i], column, vector);
    }
    if i :| 0 <= i < |written| && written[i].id == id && RowHolds(written[i], column, vector) {
      WrittenPublished(tx, s, written[i]);
      HoldsIn(rows, written[i], column, vector);
    }
    if !Touches(tx, id) {
      if i :| 0 <= i < |s.rows| && s.rows[i].id == id && RowHolds(s.rows[i], column, vector) {
        UntouchedPublished(tx, s, s.rows[i]);
        HoldsIn(rows, s.rows[i], column, vector);
      }
    }
  }

  // A cell that stays untouched is not written as well.
  lemma UntouchedCell(tx: Tx.Tx, s: Store, id: nat, column: nat, vector: seq<U32>)
    requires CleanTx(tx, s) && RowsHold(s.rows, id, column, vector) && !Touches(tx, id)
    ensures !RowsHold(WrittenRows(tx, s), id, column, vector)
  {
    hide WrittenRows, CleanTx, RowHolds, Touches;
    var i :| 0 <= i < |s.rows| && s.rows[i].id == id && RowHolds(s.rows[i], column, vector);
    var written := WrittenRows(tx, s);
    forall k | 0 <= k < |written| ensures written[k].id != id {
      UntouchedUnwritten(tx, s, s.rows[i], written[k]);
    }
  }

  /** The vector cells of the published store are the cells the transaction wrote if and
      only if it touches every row that held a vector. */
  lemma StoreWritesExactly(tx: Tx.Tx, s: Store)
    requires CleanTx(tx, s)
    ensures Tx.Publish(tx, s).Ok?
    ensures SameCells(Tx.Publish(tx, s).value.rows, WrittenRows(tx, s)) <==> TouchesVectors(tx, s)
  {
    Tx.CommitMeaning(tx, s);
    var rows, written := Tx.Publish(tx, s).value.rows, WrittenRows(tx, s);
    hide Tx.Publish, WrittenRows, CleanTx, RowHolds, Tx.RowsStillLive, Touches, StoreOk, Tx.TxOk;
    forall id: nat, column: nat, vector
      ensures RowsHold(rows, id, column, vector) <==>
              RowsHold(written, id, column, vector) || (RowsHold(s.rows, id, column, vector) && !Touches(tx, id))
    {
      StoreCells(tx, s, id, column, vector);
    }
    if SameCells(rows, written) {
      forall i, column, vector | 0 <= i < |s.rows| && RowHolds(s.rows[i], column, vector)
        ensures Touches(tx, s.rows[i].id)
      {
        assert RowsHold(s.rows, s.rows[i].id, column, vector);
        if !Touches(tx, s.rows[i].id) { UntouchedCell(tx, s, s.rows[i].id, column, vector); }
      }
    }
  }

  // ---- A batch --------------------------------------------------------------

  lemma {:induction false} PublishedAt(stores: seq<Store>, txs: seq<TableTx>, k: nat)
    requires StoresOk(stores) && EntriesOk(stores, txs) && PublishAll(stores, txs).error.None? && k < |txs|
    ensures Tx.Publish(txs[k].tx, stores[txs[k].table]).Ok?
    ensures PublishAll(stores, txs).stores[txs[k].table] == Tx.Publish(txs[k].tx, stores[txs[k].table]).value
    decreases |txs|
  {
    hide StoreOk, Built, Tx.Publish, Tx.TxOk;
    var t := txs[0].table;
    PublishOne(stores, txs);
    var stores1 := stores[t := Tx.Publish(txs[0].tx, stores[t]).value];
    if k == 0 {
      forall i | 0 <= i < |txs[1..]| ensures txs[1..][i].table != t { assert txs[1..][i] == txs[i + 1]; }
      PublishLeaves(stores1, txs[1..], t);
    } else {
      PublishedAt(stores1, txs[1..], k - 1);
    }
  }

  ghost predicate TouchedIn(txs: seq<TableTx>, t: nat, id: nat) {
    exists k :: 0 <= k < |txs| && txs[k].table == t && Touches(txs[k].tx, id)
  }

  /** The batch updates or deletes every committed row that holds a vector. */
  ghost predicate BatchTouches(stores: seq<Store>, txs: seq<TableTx>) {
    forall key, vector :: Live(stores, key, vector) ==> TouchedIn(txs, key.table, key.row)
  }

  /** The cell holds this vector once the batch is published: the batch writes it, or it
      is there and its row is left alone. */
  ghost predicate Lands(stores: seq<Store>, txs: seq<TableTx>, key: Key, vector: seq<U32>) {
    || Writes(stores, txs, key, vector)
    || (Live(stores, key, vector) && !TouchedIn(txs, key.table, key.row))
  }

  ghost predicate CleanBatch(stores: seq<Store>, txs: seq<TableTx>) {
    && StoresOk(stores) && EntriesOk(stores, txs)
    && forall k :: 0 <= k < |txs| ==> CanPublish(stores, txs[k])
  }

  lemma LiveRows(stores: seq<Store>, key: Key, vector: seq<U32>)
    ensures Live(stores, key, vector) <==>
            key.table < |stores| && RowsHold(stores[key.table].rows, key.row, key.column, vector)
  {}

  // One entry, seen from its table.
  lemma EntryCells(stores: seq<Store>, txs: seq<TableTx>, k: nat, id: nat, column: nat, vector: seq<U32>)
    requires CleanBatch(stores, txs) && k < |txs|
    ensures var t, tx := txs[k].table, txs[k].tx;
            && CleanTx(tx, stores[t])
            && (Writes(stores, txs, Key(t, column, id), vector) <==>
                  RowsHold(WrittenRows(tx, stores[t]), id, column, vector))
            && (TouchedIn(txs, t, id) <==> Touches(tx, id))
  {
    var t, tx := txs[k].table, txs[k].tx;
    assert CleanTx(tx, stores[t]);
    hide StoresOk, CanPublish, WrittenRows, RowHolds, Touches, CleanTx;
    assert forall i :: 0 <= i < |txs| && txs[i].table == t ==> i == k;
    if Touches(tx, id) { assert txs[k].table == t; }
  }

  /** The committed vector cells after a batch: the ones it writes and the ones it leaves
      alone, and no cell is both. */
  lemma PublishedCells(stores: seq<Store>, txs: seq<TableTx>, key: Key, vector: seq<U32>)
    requires CleanBatch(stores, txs)
    ensures Live(PublishAll(stores, txs).stores, key, vector) <==> Lands(stores, txs, key, vector)
    ensures Live(stores, key, vector) && !TouchedIn(txs, key.table, key.row) ==> !Writes(stores, txs, key, vector)
  {
    PublishExactly(stores, txs);
    LiveRows(stores, key, vector);
    LiveRows(PublishAll(stores, txs).stores, key, vector);
    var t := key.table;
    assert key == Key(t, key.column, key.row);
    if k :| 0 <= k < |txs| && txs[k].table == t {
      EntryCells(stores, txs, k, key.row, key.column, vector);
      PublishedAt(stores, txs, k);
      hide CleanBatch, PublishAll, CleanTx, Tx.Publish, WrittenRows, RowsHold, Touches, Live, Writes, TouchedIn;
      StoreCells(txs[k].tx, stores[t], key.row, key.column, vector);
      if RowsHold(stores[t].rows, key.row, key.column, vector) && !Touches(txs[k].tx, key.row) {
        UntouchedCell(txs[k].tx, stores[t], key.row, key.column, vector);
      }
    } else if t < |stores| {
      OtherTable(stores, txs, key, vector);
    }
  }

  lemma OtherTable(stores: seq<Store>, txs: seq<TableTx>, key: Key, vector: seq<U32>)
    requires CleanBatch(stores, txs) && key.table < |stores| && forall k :: 0 <= k < |txs| ==> txs[k].table != key.table
    ensures PublishAll(stores, txs).stores[key.table] == stores[key.table]
    ensures !Writes(stores, txs, key, vector) && !TouchedIn(txs, key.table, key.row)
  {
    PublishLeaves(stores, txs, key.table);
  }

  ghost predicate CellsAreWrites(stores: seq<Store>, txs: seq<TableTx>) {
    forall key, vector :: Live(PublishAll(stores, txs).stores, key, vector) <==> Writes(stores, txs, key, vector)
  }

  /** The committed vector cells after a batch are the cells the batch wrote if and only
      if it touches every row that held a vector before. */
  lemma BatchWritesExactly(stores: seq<Store>, txs: seq<TableTx>)
    requires CleanBatch(stores, txs)
    ensures CellsAreWrites(stores, txs) <==> BatchTouches(stores, txs)
  {
    hide CleanBatch, PublishAll, Live, Writes, TouchedIn;
    forall key, vector
      ensures Live(PublishAll(stores, txs).stores, key, vector) <==> Lands(stores, txs, key, vector)
      ensures Live(stores, key, vector) && !TouchedIn(txs, key.table, key.row) ==> !Writes(stores, txs, key, vector)
    {
      PublishedCells(stores, txs, key, vector);
    }
    if CellsAreWrites(stores, txs) {
      forall key, vector | Live(stores, key, vector) ensures TouchedIn(txs, key.table, key.row) {
        assert Live(PublishAll(stores, txs).stores, key, vector) <==> Lands(stores, txs, key, vector);
      }
    }
  }

  // ---- The overlay as a log -------------------------------------------------

  /** What the commit stamps is what it wrote. */
  ghost predicate StampsItsWrites(st: State, sid: nat) {
    var st1 := CommitStep(st, sid).0;
    forall key, vector ::
      Delta(st1.sequence, key, vector) in st1.overlay <==> Writes(st.stores, SessionOf(st, sid).txs, key, vector)
  }

  /** The overlay is a log of vector writes for a commit if and only if the commit updates
      or deletes every committed row that holds a vector. */
  lemma OverlayIsALogExactly(st: State, sid: nat)
    requires Inv(st) && UniqueKeys(st.overlay) && NoneNewer(st.overlay, st.sequence)
    requires CommitsCleanly(st, Commit(sid))
    ensures StampsItsWrites(st, sid) <==> BatchTouches(st.stores, SessionOf(st, sid).txs)
  {
    CommitsCleanlyExactly(st, Commit(sid));
    CleanCommit(st, sid);
    hide Inv, CommitStep, CommitsCleanly, PublishesBatch, CleanBatch, Writes, Live, BatchTouches, PublishAll,
      UniqueKeys, NoneNewer;
    BatchWritesExactly(st.stores, SessionOf(st, sid).txs);
    var st1 := CommitStep(st, sid).0;
    forall key, vector
      ensures Delta(st1.sequence, key, vector) in st1.overlay <==> Live(st1.stores, key, vector)
    {
      StampedCellsExactly(st, sid, Delta(st1.sequence, key, vector));
    }
  }

  lemma CleanCommit(st: State, sid: nat)
    requires Inv(st) && CommitsCleanly(st, Commit(sid))
    ensures CleanBatch(st.stores, SessionOf(st, sid).txs)
    ensures CommitStep(st, sid).0.stores == PublishAll(st.stores, SessionOf(st, sid).txs).stores
  {
    SessionEntries(st, sid);
    PublishExactly(st.stores, SessionOf(st, sid).txs);
    hide Inv, StoresOk, EntriesOk, PublishAll, RecordAll, Cells, Release, RetainCurrent, CanPublish;
  }
}
