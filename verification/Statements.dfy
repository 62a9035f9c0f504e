/** What a session sees after one of its own statements: an accepted INSERT, UPDATE or
    DELETE of a row is exactly what the next read shows, and a refused one shows nothing. */
module Statements {
  import opened Values
  import opened Catalog
  import opened Rows
  import Tx = Transactions
  import opened Engine
  import opened EngineInvariant
  import opened Snapshots
  import opened Staging

  // The session's transaction on the table, as its next statement finds it.
  function EntryTx(st: State, sid: nat, t: nat): Tx.Tx
    requires t < |st.stores|
  {
    var txs := SessionOf(st, sid).txs;
    var at := EntryFor(txs, t);
    if at.Some? then txs[at.value].tx else Tx.Begin(st.stores[t])
  }

  lemma FreshScan(s: Store, base: Store)
    ensures Tx.Scan(Tx.Begin(s), base) == Ok(base.rows)
  {
    ViewIdentity(base.rows);
    assert Tx.DeadIds([]) == {} && Tx.Replacements([]) == map[];
    assert base.rows + [] == base.rows;
  }

  // A read is the scan of the session's transaction over its base.
  lemma ReadIsScan(st: State, sid: nat, t: nat)
    requires t < |st.stores|
    ensures ReadTable(st, sid, t) ==
            (match BaseFor(st, SessionOf(st, sid), t)
             case Err(e) => Err(e)
             case Ok(base) => Tx.Scan(EntryTx(st, sid, t), base))
  {
    hide Tx.Scan;
    var base := BaseFor(st, SessionOf(st, sid), t);
    if base.Ok? { FreshScan(st.stores[t], base.value); }
  }

  ghost predicate Active(st: State, sid: nat, t: nat) {
    Inv(st) && SessionOf(st, sid).active && t < |st.stores|
  }

  lemma ReadsThrough(st: State, sid: nat, t: nat)
    requires Active(st, sid, t) && ReadTable(st, sid, t).Ok?
    ensures BaseFor(st, SessionOf(st, sid), t).Ok?
    ensures Reads(EntryTx(st, sid, t), BaseFor(st, SessionOf(st, sid), t).value, ReadTable(st, sid, t).value)
    ensures UniqueIds(EntryTx(st, sid, t).updates)
  {
    ReadIsScan(st, sid, t);
    ActiveReadsExactly(st, sid, t);
    EntryOk(st, sid, t);
    BaseUnique(st, sid, t);
  }

  lemma EntryOk(st: State, sid: nat, t: nat)
    requires Active(st, sid, t)
    ensures UniqueIds(EntryTx(st, sid, t).updates)
  {
    hide Inv;
    ActiveEntries(st, sid);
    hide StoresOk;
  }

  lemma BaseUnique(st: State, sid: nat, t: nat)
    requires Active(st, sid, t) && BaseFor(st, SessionOf(st, sid), t).Ok?
    ensures UniqueIds(BaseFor(st, SessionOf(st, sid), t).value.rows)
  {
    var g := SessionOf(st, sid).generation;
    BaseOlder(st, g);
    hide Inv;
    assert BaseFor(st, SessionOf(st, sid), t).value == Base(st, g)[t];
    assert StoreOk(Base(st, g)[t]);
  }

  // ---- One staged operation -------------------------------------------------

  lemma {:induction false} EntryKept(a: seq<TableTx>, b: seq<TableTx>, t: nat)
    requires |a| == |b| && forall i :: 0 <= i < |a| ==> a[i].table == b[i].table
    ensures EntryFor(a, t) == EntryFor(b, t)
  {
    if a != [] { EntryKept(a[1..], b[1..], t); }
  }

  lemma {:induction false} EntryAppended(txs: seq<TableTx>, e: TableTx, t: nat)
    requires EntryFor(txs, e.table).None?
    ensures EntryFor(txs + [e], t) == if t == e.table then Some(|txs|) else EntryFor(txs, t)
  {
    if txs == [] {
      assert txs + [e] == [e] && EntryFor([e][1..], t).None?;
    } else {
      assert (txs + [e])[1..] == txs[1..] + [e];
      EntryAppended(txs[1..], e, t);
    }
  }

  // Opening an entry changes no read.
  lemma EntryOpened(st: State, sid: nat, t: nat, u: nat)
    requires Active(st, sid, t)
    ensures var s := SessionOf(st, sid);
            var st1 := WithSession(st, sid, s.(txs := WithEntry(st.stores, s.txs, t)));
            && ReadTable(st1, sid, u) == ReadTable(st, sid, u)
            && EntryTx(st1, sid, t) == EntryTx(st, sid, t)
            && EntryFor(SessionOf(st1, sid).txs, t).Some?
  {
    hide Inv;
    var s := SessionOf(st, sid);
    var st1 := WithSession(st, sid, s.(txs := WithEntry(st.stores, s.txs, t)));
    if EntryFor(s.txs, t).None? {
      EntryAppended(s.txs, TableTx(t, Tx.Begin(st.stores[t])), t);
      EntryAppended(s.txs, TableTx(t, Tx.Begin(st.stores[t])), u);
    }
    if u < |st.stores| {
      ReadIsScan(st, sid, u);
      ReadIsScan(st1, sid, u);
      assert BaseFor(st1, SessionOf(st1, sid), u) == BaseFor(st, s, u);
    }
  }

  // Replacing the entry changes the reads of its table only.
  lemma EntryReplaced(st: State, sid: nat, t: nat, tx: Tx.Tx, u: nat)
    requires SessionOf(st, sid).active && t < |st.stores| && EntryFor(SessionOf(st, sid).txs, t).Some?
    ensures var s := SessionOf(st, sid);
            var st1 := WithSession(st, sid, s.(txs := s.txs[EntryFor(s.txs, t).value := TableTx(t, tx)]));
            && EntryTx(st1, sid, t) == tx
            && (u != t ==> ReadTable(st1, sid, u) == ReadTable(st, sid, u))
            && BaseFor(st1, SessionOf(st1, sid), t) == BaseFor(st, s, t)
  {
    var s := SessionOf(st, sid);
    var at := EntryFor(s.txs, t).value;
    var txs := s.txs[at := TableTx(t, tx)];
    EntryKept(s.txs, txs, t);
    EntryKept(s.txs, txs, u);
  }

  /** What a staged operation shows: refused, it changes no read; accepted, the reads of its
      table are scans of the new transaction over the same base, and no other read moves. */
  lemma StageShows(st: State, sid: nat, t: nat, op: (Tx.Tx, Store) -> Result<Tx.Tx>, u: nat)
    requires Active(st, sid, t)
    ensures var (st1, outcome) := StageStep(st, sid, t, op);
            var r := op(EntryTx(st, sid, t), st.stores[t]);
            && outcome == (if r.Ok? then Done else Refused(r.error))
            && (u != t || r.Err? ==> ReadTable(st1, sid, u) == ReadTable(st, sid, u))
            && (r.Ok? ==> EntryTx(st1, sid, t) == r.value)
            && (r.Ok? && BaseFor(st, SessionOf(st, sid), t).Ok? ==>
                  ReadTable(st1, sid, t) == Tx.Scan(r.value, BaseFor(st, SessionOf(st, sid), t).value))
  {
    hide Inv, Tx.Scan, EntryTx, BaseFor, ReadTable;
    StageParts(st, sid, t, op);
    hide StageStep;
    var s := SessionOf(st, sid);
    EntryOpened(st, sid, t, u);
    EntryOpened(st, sid, t, t);
    var st0 := WithSession(st, sid, s.(txs := WithEntry(st.stores, s.txs, t)));
    var r := op(EntryTx(st, sid, t), st.stores[t]);
    if r.Ok? {
      EntryReplaced(st0, sid, t, r.value, u);
      ReadIsScan(StageStep(st, sid, t, op).0, sid, t);
    }
  }

  // Opening the entry, then replacing it.
  lemma StageParts(st: State, sid: nat, t: nat, op: (Tx.Tx, Store) -> Result<Tx.Tx>)
    requires SessionOf(st, sid).active && t < |st.stores|
    ensures var (st1, outcome) := StageStep(st, sid, t, op);
            var s := SessionOf(st, sid);
            var st0 := WithSession(st, sid, s.(txs := WithEntry(st.stores, s.txs, t)));
            var r := op(EntryTx(st, sid, t), st.stores[t]);
            && EntryFor(SessionOf(st0, sid).txs, t).Some? && SessionOf(st0, sid).active
            && BaseFor(st0, SessionOf(st0, sid), t) == BaseFor(st, s, t)
            && (if r.Err? then st1 == st0 && outcome == Refused(r.error)
                else outcome == Done
                     && var s0 := SessionOf(st0, sid);
                        st1 == WithSession(st0, sid,
                                 s0.(txs := s0.txs[EntryFor(s0.txs, t).value := TableTx(t, r.value)])))
  {
    var s := SessionOf(st, sid);
    if EntryFor(s.txs, t).None? { EntryAppended(s.txs, TableTx(t, Tx.Begin(st.stores[t])), t); }
    hide EntryFor;
    var txs := WithEntry(st.stores, s.txs, t);
    var st0 := WithSession(st, sid, s.(txs := txs));
    var r := op(EntryTx(st, sid, t), st.stores[t]);
    if r.Ok? {
      var s1 := s.(txs := txs[EntryFor(txs, t).value := TableTx(t, r.value)]);
      assert st0.sessions[sid := s1] == st.sessions[sid := s1];
    }
  }

  // ---- The statements -------------------------------------------------------

  /** The session reads these rows of the table. */
  ghost predicate Sees(st: State, sid: nat, t: nat, rows: seq<Row>) {
    Active(st, sid, t) && ReadTable(st, sid, t) == Ok(rows)
  }

  predicate OwnInsert(st: State, sid: nat, t: nat, id: nat)
    requires t < |st.stores|
  {
    HasId(EntryTx(st, sid, t).inserts, id)
  }

  /** An INSERT is accepted exactly when the values fit the table, and then the next read
      shows one more row, the last, under the transaction's next id, which starts at the
      live store's and moves on by one. */
  lemma InsertedIsSeen(st: State, sid: nat, t: nat, rows: seq<Row>, values: seq<Value>, u: nat)
    requires Sees(st, sid, t, rows)
    ensures var (st1, outcome) := Step(st, StageInsert(sid, t, values));
            var check := CheckRow(st.stores[t].table, values);
            && outcome == (if check.Ok? then Done else Refused(check.error))
            && (check.Ok? ==> && ReadTable(st1, sid, t) == Ok(rows + [Row(EntryTx(st, sid, t).nextId, values)])
                              && EntryTx(st1, sid, t).nextId == EntryTx(st, sid, t).nextId + 1)
            && (EntryFor(SessionOf(st, sid).txs, t).None? ==> EntryTx(st, sid, t).nextId == st.stores[t].nextId)
            && (u != t || check.Err? ==> ReadTable(st1, sid, u) == ReadTable(st, sid, u))
  {
    hide Inv, StageStep, ReadTable, Tx.Scan, CheckRow;
    ReadsThrough(st, sid, t);
    StageShows(st, sid, t, InsertOp(values), u);
    InsertShows(EntryTx(st, sid, t), BaseFor(st, SessionOf(st, sid), t).value, rows, st.stores[t].table, values);
  }

  /** An UPDATE that matches a row the session sees is accepted exactly when the row is the
      session's own insert or still live and the new values fit, and then the next read
      shows the same rows with the new values in that one. One that matches no row shows
      nothing. */
  lemma UpdatedIsSeen(st: State, sid: nat, t: nat, rows: seq<Row>, id: nat, values: seq<Value>, u: nat)
    requires Sees(st, sid, t, rows)
    ensures var (st1, outcome) := Step(st, StageUpdate(sid, t, id, values));
            var check := CheckRow(st.stores[t].table, values);
            var reachable := OwnInsert(st, sid, t, id) || HasId(st.stores[t].rows, id);
            && outcome == (if !HasId(rows, id) then Done
                           else if !reachable then Refused(UnknownRow)
                           else if check.Err? then Refused(check.error) else Done)
            && (outcome == Done && HasId(rows, id) ==>
                  ReadTable(st1, sid, t).Ok? && Changed(rows, ReadTable(st1, sid, t).value, id, values))
            && (u != t || outcome != Done || !HasId(rows, id) ==> ReadTable(st1, sid, u) == ReadTable(st, sid, u))
  {
    hide Inv, StageStep, ReadTable, Tx.Scan, CheckRow, Tx.Update;
    ReadsThrough(st, sid, t);
    var tx, base := EntryTx(st, sid, t), BaseFor(st, SessionOf(st, sid), t).value;
    StageShows(st, sid, t, UpdateOp(Ok(rows), id, values), u);
    if HasId(rows, id) {
      UpdateAcceptedExactly(tx, st.stores[t], base, rows, id, values);
      if Tx.Update(tx, st.stores[t], id, values).Ok? {
        UpdateShows(tx, st.stores[t], base, rows, id, values);
      }
    }
  }

  /** A DELETE that matches a row the session sees is accepted exactly when the row is the
      session's own insert or still live, and then the next read shows the same rows
      without it. One that matches no row shows nothing. */
  lemma DeletedIsGone(st: State, sid: nat, t: nat, rows: seq<Row>, id: nat, u: nat)
    requires Sees(st, sid, t, rows)
    ensures var (st1, outcome) := Step(st, StageDelete(sid, t, id));
            var reachable := OwnInsert(st, sid, t, id) || HasId(st.stores[t].rows, id);
            && outcome == (if HasId(rows, id) && !reachable then Refused(UnknownRow) else Done)
            && (outcome == Done && HasId(rows, id) ==>
                  ReadTable(st1, sid, t).Ok? && Removed(rows, ReadTable(st1, sid, t).value, id))
            && (u != t || outcome != Done || !HasId(rows, id) ==> ReadTable(st1, sid, u) == ReadTable(st, sid, u))
  {
    hide Inv, StageStep, ReadTable, Tx.Scan, Tx.Delete;
    ReadsThrough(st, sid, t);
    var tx, base := EntryTx(st, sid, t), BaseFor(st, SessionOf(st, sid), t).value;
    StageShows(st, sid, t, DeleteOp(Ok(rows), id), u);
    if HasId(rows, id) {
      DeleteAcceptedExactly(tx, st.stores[t], base, rows, id);
      if Tx.Delete(tx, st.stores[t], id).Ok? {
        DeleteShows(tx, st.stores[t], base, rows, id);
      }
    }
  }

  /** A statement that matches no row shows nothing. */
  lemma TouchedIsTheSame(st: State, sid: nat, t: nat, rows: seq<Row>, u: nat)
    requires Sees(st, sid, t, rows)
    ensures var (st1, outcome) := Step(st, Touch(sid, t));
            outcome == Done && ReadTable(st1, sid, u) == ReadTable(st, sid, u)
  {
    hide Inv, StageStep, ReadTable, Tx.Scan;
    ReadsThrough(st, sid, t);
    StageShows(st, sid, t, TouchOp(Ok(rows)), u);
    ReadIsScan(st, sid, t);
  }
}
