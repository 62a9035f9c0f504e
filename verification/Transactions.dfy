/** One table's transaction: staged inserts, updates and deletes over a row store,
    what its owner sees, and what committing it publishes. */
module Transactions {
  import opened Values
  import opened Catalog
  import opened Rows

  datatype TxState = Active | Committed | RolledBack
  datatype Tx = Tx(state: TxState, nextId: nat, inserts: seq<Row>, updates: seq<Row>, deletes: seq<nat>)

  function Begin(store: Store): Tx {
    Tx(Active, store.nextId, [], [], [])
  }

  function EnsureActive(tx: Tx): Result<()> {
    match tx.state
    case Active => Ok(())
    case Committed => Err(AlreadyCommitted)
    case RolledBack => Err(AlreadyRolledBack)
  }

  function FindIndex(rows: seq<Row>, id: nat): (r: Option<nat>)
    ensures r.Some? ==> r.value < |rows| && rows[r.value].id == id
    ensures r.None? <==> !HasId(rows, id)
  {
    if rows == [] then None
    else if rows[0].id == id then Some(0)
    else
      var r := FindIndex(rows[1..], id);
      assert r.Some? ==> rows[r.value + 1].id == id;
      assert HasId(rows, id) ==> HasId(rows[1..], id) by { HasIdCons(rows, id); }
      if r.None? then None else Some(r.value + 1)
  }

  function RemoveAt<T>(s: seq<T>, i: nat): seq<T>
    requires i < |s|
  {
    s[..i] + s[i + 1..]
  }

  function Insert(tx: Tx, table: TableDef, values: seq<Value>): Result<Tx> {
    var _ :- EnsureActive(tx);
    var _ :- CheckRow(table, values);
    Ok(tx.(inserts := tx.inserts + [Row(tx.nextId, values)], nextId := tx.nextId + 1))
  }

  // The row is looked up in the live store, not in the snapshot the owner reads.
  function Update(tx: Tx, live: Store, id: nat, values: seq<Value>): Result<Tx> {
    var _ :- EnsureActive(tx);
    var own := FindIndex(tx.inserts, id);
    if own.Some? then
      var _ :- CheckRow(live.table, values);
      Ok(tx.(inserts := tx.inserts[own.value := Row(id, values)]))
    else if id in tx.deletes || !HasId(live.rows, id) then Err(UnknownRow)
    else
      var earlier := FindIndex(tx.updates, id);
      var _ :- CheckRow(live.table, values);
      if earlier.Some? then Ok(tx.(updates := tx.updates[earlier.value := Row(id, values)]))
      else Ok(tx.(updates := tx.updates + [Row(id, values)]))
  }

  function Delete(tx: Tx, live: Store, id: nat): Result<Tx> {
    var _ :- EnsureActive(tx);
    var own := FindIndex(tx.inserts, id);
    if own.Some? then Ok(tx.(inserts := RemoveAt(tx.inserts, own.value)))
    else if !HasId(live.rows, id) || id in tx.deletes then Err(UnknownRow)
    else
      var earlier := FindIndex(tx.updates, id);
      Ok(tx.(updates := if earlier.Some? then RemoveAt(tx.updates, earlier.value) else tx.updates,
             deletes := tx.deletes + [id]))
  }

  // The staged replacements, the first one for an id winning.
  function Replacements(updates: seq<Row>): map<nat, seq<Value>> {
    if updates == [] then map[]
    else Replacements(updates[1..])[updates[0].id := updates[0].values]
  }

  function DeadIds(deletes: seq<nat>): set<nat> {
    set d | d in deletes
  }

  /** What the owner of the transaction sees over a base store. */
  function Scan(tx: Tx, base: Store): Result<seq<Row>> {
    var _ :- EnsureActive(tx);
    Ok(View(base.rows, DeadIds(tx.deletes), Replacements(tx.updates)) + tx.inserts)
  }

  function ApplyDeletes(s: Store, deletes: seq<nat>): Result<Store>
    decreases |deletes|
  {
    if deletes == [] then Ok(s)
    else
      var s1 :- DeleteRow(s, deletes[0]);
      ApplyDeletes(s1, deletes[1..])
  }

  function ApplyUpdates(s: Store, updates: seq<Row>): Result<Store>
    decreases |updates|
  {
    if updates == [] then Ok(s)
    else
      var s1 :- UpdateRow(s, updates[0].id, updates[0].values);
      ApplyUpdates(s1, updates[1..])
  }

  // A staged id that somebody else has taken meanwhile gives way to the next free id.
  function CommitId(s: Store, staged: nat): nat {
    if HasId(s.rows, staged) then s.nextId else staged
  }

  function ApplyInserts(s: Store, inserts: seq<Row>): Result<Store>
    decreases |inserts|
  {
    if inserts == [] then Ok(s)
    else
      var s1 :- InsertWithId(s, CommitId(s, inserts[0].id), inserts[0].values);
      ApplyInserts(s1, inserts[1..])
  }

  /** The store after publishing the transaction, built on a copy: on an error the
      store is untouched. */
  function Publish(tx: Tx, s: Store): Result<Store> {
    var _ :- EnsureActive(tx);
    var s1 :- ApplyDeletes(s, tx.deletes);
    var s2 :- ApplyUpdates(s1, tx.updates);
    ApplyInserts(s2, tx.inserts)
  }

  function Close(tx: Tx, state: TxState): Tx {
    Tx(state, tx.nextId, [], [], [])
  }

  // ---- What every transaction keeps ---------------------------------------

  ghost predicate Increasing(rows: seq<Row>) {
    forall i, j :: 0 <= i < j < |rows| ==> rows[i].id < rows[j].id
  }

  ghost predicate RowsOk(rows: seq<Row>, table: TableDef) {
    forall i :: 0 <= i < |rows| ==> CheckRow(table, rows[i].values).Ok?
  }

  ghost predicate DistinctIds(ids: seq<nat>) {
    forall i, j :: 0 <= i < j < |ids| ==> ids[i] != ids[j]
  }

  ghost predicate TxOk(tx: Tx, table: TableDef) {
    && Increasing(tx.inserts)
    && (forall i :: 0 <= i < |tx.inserts| ==> tx.inserts[i].id < tx.nextId)
    && RowsOk(tx.inserts, table)
    && UniqueIds(tx.updates)
    && RowsOk(tx.updates, table)
    && DistinctIds(tx.deletes)
    && (forall i :: 0 <= i < |tx.updates| ==> tx.updates[i].id !in tx.deletes)
    && (tx.state != Active ==> tx.inserts == [] && tx.updates == [] && tx.deletes == [])
  }

  lemma InsertKeeps(tx: Tx, table: TableDef, values: seq<Value>)
    requires TxOk(tx, table)
    ensures var r := Insert(tx, table, values);
            r.Ok? ==> TxOk(r.value, table) && r.value.state == Active
                      && r.value.inserts == tx.inserts + [Row(tx.nextId, values)]
  {}

  lemma UpdateKeeps(tx: Tx, live: Store, id: nat, values: seq<Value>)
    requires TxOk(tx, live.table)
    ensures var r := Update(tx, live, id, values);
            r.Ok? ==> TxOk(r.value, live.table) && r.value.state == Active && r.value.nextId == tx.nextId
                      && |r.value.inserts| == |tx.inserts|
                      && forall i :: 0 <= i < |tx.inserts| ==> r.value.inserts[i].id == tx.inserts[i].id
  {
    hide CheckRow;
    var r := Update(tx, live, id, values);
    if r.Ok? {
      assert CheckRow(live.table, values).Ok?;
      if FindIndex(tx.inserts, id).None? && FindIndex(tx.updates, id).None? {
        forall i | 0 <= i < |tx.updates| ensures tx.updates[i].id != id {}
      }
    }
  }

  // Taking one row out of a list leaves rows of that list, in order.
  lemma RemoveAtKeeps(rows: seq<Row>, i: nat, table: TableDef)
    requires i < |rows| && RowsOk(rows, table)
    ensures var r := RemoveAt(rows, i);
            && RowsOk(r, table)
            && (Increasing(rows) ==> Increasing(r))
            && (UniqueIds(rows) ==> UniqueIds(r) && !HasId(r, rows[i].id))
            && forall k :: 0 <= k < |r| ==> r[k] in rows
  {
    hide CheckRow;
    var r := RemoveAt(rows, i);
    forall k | 0 <= k < |r| ensures r[k] == rows[if k < i then k else k + 1] {}
  }

  lemma DeleteKeeps(tx: Tx, live: Store, id: nat)
    requires TxOk(tx, live.table)
    ensures var r := Delete(tx, live, id);
            r.Ok? ==> TxOk(r.value, live.table) && r.value.state == Active && r.value.nextId == tx.nextId
                      && forall i :: 0 <= i < |r.value.inserts| ==> r.value.inserts[i] in tx.inserts
  {
    var r := Delete(tx, live, id);
    if r.Ok? {
      var own := FindIndex(tx.inserts, id);
      if own.Some? {
        RemoveAtKeeps(tx.inserts, own.value, live.table);
        hide RowsOk, RemoveAt, FindIndex, HasId;
      } else {
        var earlier := FindIndex(tx.updates, id);
        if earlier.Some? { RemoveAtKeeps(tx.updates, earlier.value, live.table); }
        hide RowsOk, RemoveAt, FindIndex;
        var updates := r.value.updates;
        forall i | 0 <= i < |updates| ensures updates[i].id !in tx.deletes + [id] {
          assert updates[i] in tx.updates;
        }
      }
    }
  }

  // ---- What a commit publishes --------------------------------------------

  /** The guard of a clean commit: every row the transaction updates or deletes is
      still live. */
  predicate RowsStillLive(tx: Tx, s: Store) {
    && IdsLive(s.rows, tx.deletes)
    && AllLive(s.rows, tx.updates)
  }

  predicate IdsLive(rows: seq<Row>, ids: seq<nat>) {
    forall i :: 0 <= i < |ids| ==> HasId(rows, ids[i])
  }

  lemma IdsLiveCons(rows: seq<Row>, ids: seq<nat>)
    requires ids != []
    ensures IdsLive(rows, ids) <==> HasId(rows, ids[0]) && IdsLive(rows, ids[1..])
  {
    if IdsLive(rows, ids[1..]) && HasId(rows, ids[0]) {
      forall i | 0 <= i < |ids| ensures HasId(rows, ids[i]) {
        if i > 0 { assert ids[i] == ids[1..][i - 1]; }
      }
    }
  }

  lemma {:induction false} DeletesPublish(s: Store, dead: set<nat>, deletes: seq<nat>)
    requires UniqueIds(s.rows) && DistinctIds(deletes)
    requires forall i :: 0 <= i < |deletes| ==> deletes[i] !in dead
    ensures ApplyDeletes(s.(rows := View(s.rows, dead, map[])), deletes) ==
            if IdsLive(s.rows, deletes)
            then Ok(s.(rows := View(s.rows, dead + DeadIds(deletes), map[])))
            else Err(UnknownRow)
    decreases |deletes|
  {
    if deletes == [] {
      assert dead + DeadIds([]) == dead;
    } else {
      var d := deletes[0];
      ViewIds(s.rows, dead, map[], d);
      IdsLiveCons(s.rows, deletes);
      if HasId(s.rows, d) {
        RemoveFromView(s.rows, dead, map[], d);
        forall i | 0 <= i < |deletes[1..]| ensures deletes[1..][i] !in dead + {d} {
          assert deletes[1..][i] == deletes[i + 1];
        }
        DeletesPublish(s, dead + {d}, deletes[1..]);
        assert dead + {d} + DeadIds(deletes[1..]) == dead + DeadIds(deletes);
      }
    }
  }

  predicate AllLive(rows: seq<Row>, touched: seq<Row>) {
    forall i :: 0 <= i < |touched| ==> HasId(rows, touched[i].id)
  }

  lemma AllLiveCons(rows: seq<Row>, touched: seq<Row>)
    requires touched != []
    ensures AllLive(rows, touched) <==> HasId(rows, touched[0].id) && AllLive(rows, touched[1..])
  {
    if AllLive(rows, touched[1..]) && HasId(rows, touched[0].id) {
      forall i | 0 <= i < |touched| ensures HasId(rows, touched[i].id) {
        if i > 0 { assert touched[i] == touched[1..][i - 1]; }
      }
    }
  }

  lemma MergeReplacements(updated: map<nat, seq<Value>>, updates: seq<Row>)
    requires updates != [] && UniqueIds(updates)
    ensures updated[updates[0].id := updates[0].values] + Replacements(updates[1..])
            == updated + Replacements(updates)
  {
    HeadUnique(updates);
    ReplacementKeys(updates[1..]);
  }

  lemma {:induction false} UpdatesPublish(
    s: Store, dead: set<nat>, updated: map<nat, seq<Value>>, updates: seq<Row>)
    requires UniqueIds(s.rows) && UniqueIds(updates) && RowsOk(updates, s.table)
    requires forall i :: 0 <= i < |updates| ==> updates[i].id !in dead
    ensures ApplyUpdates(s.(rows := View(s.rows, dead, updated)), updates) ==
            if AllLive(s.rows, updates)
            then Ok(s.(rows := View(s.rows, dead, updated + Replacements(updates))))
            else Err(UnknownRow)
    decreases |updates|
  {
    if updates == [] {
      assert updated + Replacements([]) == updated;
    } else {
      var u := updates[0];
      ViewIds(s.rows, dead, updated, u.id);
      AllLiveCons(s.rows, updates);
      if HasId(s.rows, u.id) {
        ReplaceInView(s.rows, dead, updated, u.id, u.values);
        UpdatesPublish(s, dead, updated[u.id := u.values], updates[1..]);
        MergeReplacements(updated, updates);
      }
    }
  }

  lemma {:induction false} ReplacementKeys(updates: seq<Row>)
    ensures forall id :: id in Replacements(updates) <==> HasId(updates, id)
    ensures forall id :: id in Replacements(updates) ==> Row(id, Replacements(updates)[id]) in updates
  {
    if updates != [] {
      ReplacementKeys(updates[1..]);
      forall id ensures id in Replacements(updates) <==> HasId(updates, id) {
        HasIdCons(updates, id);
      }
    }
  }

  // What publishing the inserts appends, and that it always can.
  ghost predicate Appends(s: Store, s1: Store, inserts: seq<Row>) {
    && s1.table == s.table
    && s1.nextId >= s.nextId
    && |s1.rows| == |s.rows| + |inserts|
    && s1.rows[..|s.rows|] == s.rows
    && forall i :: 0 <= i < |inserts| ==> s1.rows[|s.rows| + i].values == inserts[i].values
  }

  lemma {:induction false} InsertsPublish(s: Store, inserts: seq<Row>)
    requires StoreOk(s) && RowsOk(inserts, s.table)
    ensures var r := ApplyInserts(s, inserts);
            r.Ok? && StoreOk(r.value) && Appends(s, r.value, inserts)
    decreases |inserts|
  {
    if inserts != [] {
      var id := CommitId(s, inserts[0].id);
      var s1 := InsertWithId(s, id, inserts[0].values).value;
      InsertsPublish(s1, inserts[1..]);
      var s2 := ApplyInserts(s, inserts).value;
      assert s2.rows[..|s.rows|] == s2.rows[..|s1.rows|][..|s.rows|];
      forall i | 0 <= i < |inserts| ensures s2.rows[|s.rows| + i].values == inserts[i].values {
        if i == 0 {
          assert s2.rows[|s.rows|] == s2.rows[..|s1.rows|][|s.rows|];
        } else {
          assert s2.rows[|s1.rows| + (i - 1)].values == inserts[1..][i - 1].values;
        }
      }
    }
  }

  // The first insert of a batch takes its commit id and the rest follows on.
  lemma InsertsHead(s: Store, inserts: seq<Row>) returns (s1: Store)
    requires StoreOk(s) && RowsOk(inserts, s.table) && inserts != []
    ensures var id := CommitId(s, inserts[0].id);
            && InsertWithId(s, id, inserts[0].values) == Ok(s1)
            && StoreOk(s1) && s1.table == s.table && s1.nextId >= s.nextId
            && s1.rows == s.rows + [Row(id, inserts[0].values)]
            && ApplyInserts(s, inserts) == ApplyInserts(s1, inserts[1..])
            && ApplyInserts(s, inserts).Ok?
            && Appends(s, ApplyInserts(s, inserts).value, inserts)
            && ApplyInserts(s, inserts).value.rows[|s.rows|].id == id
  {
    s1 := InsertWithId(s, CommitId(s, inserts[0].id), inserts[0].values).value;
    InsertsPublish(s, inserts);
    InsertsPublish(s1, inserts[1..]);
    var s2 := ApplyInserts(s, inserts).value;
    assert s2.rows[|s.rows|] == s2.rows[..|s1.rows|][|s.rows|];
  }

  // A published insert takes an id below n exactly when its staged id is below n
  // and free at that moment.
  lemma {:induction false} InsertIdsBelow(s: Store, inserts: seq<Row>, n: nat, i: nat)
    requires StoreOk(s) && RowsOk(inserts, s.table) && Increasing(inserts)
    requires n <= s.nextId && i < |inserts|
    ensures ApplyInserts(s, inserts).Ok? && Appends(s, ApplyInserts(s, inserts).value, inserts)
    ensures ApplyInserts(s, inserts).value.rows[|s.rows| + i].id < n
            <==> inserts[i].id < n && !HasId(s.rows, inserts[i].id)
    decreases |inserts|
  {
    var s1 := InsertsHead(s, inserts);
    if i > 0 {
      InsertIdsBelow(s1, inserts[1..], n, i - 1);
      var head := [s1.rows[|s.rows|]];
      HasIdConcat(s.rows, head, inserts[i].id);
      HasIdCons(head, inserts[i].id);
    }
  }

  // The store between the updates and the inserts of a commit.
  function Edited(tx: Tx, s: Store): Store {
    s.(rows := View(s.rows, DeadIds(tx.deletes), Replacements(tx.updates)))
  }

  lemma EditedOk(tx: Tx, s: Store)
    requires TxOk(tx, s.table) && StoreOk(s)
    ensures StoreOk(Edited(tx, s))
    ensures forall id :: HasId(Edited(tx, s).rows, id) <==> HasId(s.rows, id) && id !in tx.deletes
  {
    var e := Edited(tx, s);
    ViewUnique(s.rows, DeadIds(tx.deletes), Replacements(tx.updates));
    ReplacementKeys(tx.updates);
    forall i | 0 <= i < |e.rows|
      ensures e.rows[i].id < s.nextId && CheckRow(s.table, e.rows[i].values).Ok?
    {
      ViewRows(s.rows, DeadIds(tx.deletes), Replacements(tx.updates), i);
    }
    forall id ensures HasId(e.rows, id) <==> HasId(s.rows, id) && id !in tx.deletes {
      ViewIds(s.rows, DeadIds(tx.deletes), Replacements(tx.updates), id);
    }
  }

  /** What a commit publishes, for every transaction and every live store, however
      much the store has moved since the transaction began: it succeeds exactly
      when the rows it touches are still live, and then every other live row is
      kept, the updated rows carry the new values, the deleted rows are gone and
      every staged insert is appended. */
  lemma CommitMeaning(tx: Tx, s: Store)
    requires TxOk(tx, s.table) && StoreOk(s) && tx.state == Active
    ensures Publish(tx, s).Ok? <==> RowsStillLive(tx, s)
    ensures Publish(tx, s).Err? ==> Publish(tx, s).error == UnknownRow
    ensures Publish(tx, s).Ok? ==>
              StoreOk(Publish(tx, s).value) && Appends(Edited(tx, s), Publish(tx, s).value, tx.inserts)
              && Publish(tx, s) == ApplyInserts(Edited(tx, s), tx.inserts)
  {
    ViewIdentity(s.rows);
    assert s.(rows := View(s.rows, {}, map[])) == s;
    DeletesPublish(s, {}, tx.deletes);
    var dead := DeadIds(tx.deletes);
    assert {} + dead == dead;
    if ApplyDeletes(s, tx.deletes).Ok? {
      UpdatesPublish(s, dead, map[], tx.updates);
      assert map[] + Replacements(tx.updates) == Replacements(tx.updates);
      EditedOk(tx, s);
      InsertsPublish(Edited(tx, s), tx.inserts);
    }
  }

  // Every published insert keeps its staged id or takes one that is new.
  lemma {:induction false} InsertIdKept(s: Store, inserts: seq<Row>, i: nat)
    requires StoreOk(s) && RowsOk(inserts, s.table) && i < |inserts|
    ensures var r := ApplyInserts(s, inserts);
            && r.Ok? && |r.value.rows| == |s.rows| + |inserts|
            && (r.value.rows[|s.rows| + i].id == inserts[i].id || r.value.rows[|s.rows| + i].id >= s.nextId)
    decreases |inserts|
  {
    var s1 := InsertsHead(s, inserts);
    InsertsPublish(s, inserts);
    if i > 0 {
      InsertIdKept(s1, inserts[1..], i - 1);
    } else {
      InsertsPublish(s1, inserts[1..]);
      var r := ApplyInserts(s, inserts).value;
      assert r.rows[|s.rows|] == r.rows[..|s1.rows|][|s.rows|];
    }
  }

  ghost predicate NoneTaken(rows: seq<Row>, inserts: seq<Row>) {
    forall i :: 0 <= i < |inserts| ==> !HasId(rows, inserts[i].id)
  }

  /** The inserts are published as they were staged, ids included, exactly when none of
      their ids is taken. */
  lemma {:induction false} InsertsKeepIdsExactly(s: Store, inserts: seq<Row>)
    requires StoreOk(s) && RowsOk(inserts, s.table) && Increasing(inserts)
    ensures ApplyInserts(s, inserts).Ok?
    ensures ApplyInserts(s, inserts).value.rows == s.rows + inserts <==> NoneTaken(s.rows, inserts)
    decreases |inserts|
  {
    if inserts == [] {
      assert s.rows + [] == s.rows;
    } else {
      hide StoreOk, ApplyInserts, InsertWithId, HasId, Appends;
      var s1 := InsertsHead(s, inserts);
      if HasId(s.rows, inserts[0].id) {
        TakenIdMoves(s, inserts[0].id);
        assert (s.rows + inserts)[|s.rows|] == inserts[0];
      } else {
        InsertsKeepIdsExactly(s1, inserts[1..]);
        assert s1.rows == s.rows + [inserts[0]];
        assert s1.rows + inserts[1..] == s.rows + inserts;
        TakenByHead(s.rows, inserts);
      }
    }
  }

  lemma TakenIdMoves(s: Store, id: nat)
    requires StoreOk(s) && HasId(s.rows, id)
    ensures CommitId(s, id) != id
  {}

  lemma TakenByHead(rows: seq<Row>, inserts: seq<Row>)
    requires Increasing(inserts) && inserts != [] && !HasId(rows, inserts[0].id)
    ensures NoneTaken(rows, inserts) <==> NoneTaken(rows + [inserts[0]], inserts[1..])
  {
    forall i | 0 < i < |inserts|
      ensures HasId(rows + [inserts[0]], inserts[i].id) <==> HasId(rows, inserts[i].id)
    {
      HasIdConcat(rows, [inserts[0]], inserts[i].id);
    }
    if NoneTaken(rows + [inserts[0]], inserts[1..]) {
      forall i | 0 <= i < |inserts| ensures !HasId(rows, inserts[i].id) {
        if i > 0 { assert inserts[1..][i - 1] == inserts[i]; }
      }
    }
  }

  // The two stores look the same through the transaction's updates and deletes.
  ghost predicate SameThrough(tx: Tx, base: Store, s: Store) {
    View(base.rows, DeadIds(tx.deletes), Replacements(tx.updates)) ==
      View(s.rows, DeadIds(tx.deletes), Replacements(tx.updates))
  }

  /** A commit publishes exactly the rows its owner saw over the base it reads, in the
      same order and under the same ids, if and only if base and live store look the
      same through its updates and deletes and no surviving live row has taken one of
      its ids. */
  lemma CommitPublishesWhatItsWriterSaw(tx: Tx, base: Store, s: Store)
    requires TxOk(tx, s.table) && StoreOk(s) && tx.state == Active && RowsStillLive(tx, s)
    ensures Publish(tx, s).Ok? && Scan(tx, base).Ok?
    ensures Scan(tx, base).value == Publish(tx, s).value.rows <==>
            SameThrough(tx, base, s) && NoneTaken(Edited(tx, s).rows, tx.inserts)
  {
    CommitMeaning(tx, s);
    EditedOk(tx, s);
    InsertsKeepIdsExactly(Edited(tx, s), tx.inserts);
    var rows := Publish(tx, s).value.rows;
    var mine := View(base.rows, DeadIds(tx.deletes), Replacements(tx.updates));
    var live := Edited(tx, s).rows;
    hide View, StoreOk, TxOk, ApplyInserts, Publish, RowsStillLive;
    if mine + tx.inserts == rows {
      assert |mine| == |live|;
      assert mine == (mine + tx.inserts)[..|mine|] && rows[..|live|] == live;
    }
  }

  /** A staged insert below the live next id whose id is free reuses a dead id. */
  predicate ReusesDeadId(tx: Tx, s: Store) {
    exists i :: 0 <= i < |tx.inserts| && tx.inserts[i].id < s.nextId
             && (!HasId(s.rows, tx.inserts[i].id) || tx.inserts[i].id in tx.deletes)
  }

  // Whether the i-th published insert took an id that had been used before.
  lemma PublishedIdBelow(tx: Tx, s: Store, i: nat)
    requires TxOk(tx, s.table) && StoreOk(s) && tx.state == Active
    requires RowsStillLive(tx, s) && i < |tx.inserts|
    ensures Publish(tx, s).Ok? && |Publish(tx, s).value.rows| == |Edited(tx, s).rows| + |tx.inserts|
    ensures Publish(tx, s).value.rows[|Edited(tx, s).rows| + i].id < s.nextId <==>
            tx.inserts[i].id < s.nextId && (!HasId(s.rows, tx.inserts[i].id) || tx.inserts[i].id in tx.deletes)
  {
    hide View, Replacements, ApplyInserts, CheckRow;
    CommitMeaning(tx, s);
    EditedOk(tx, s);
    InsertIdsBelow(Edited(tx, s), tx.inserts, s.nextId, i);
  }

  lemma CommitAppends(tx: Tx, s: Store)
    requires TxOk(tx, s.table) && StoreOk(s) && tx.state == Active && RowsStillLive(tx, s)
    ensures Publish(tx, s).Ok? && |Publish(tx, s).value.rows| == |Edited(tx, s).rows| + |tx.inserts|
  {
    CommitMeaning(tx, s);
  }

  ghost predicate FreshFrom(rows: seq<Row>, from: nat, n: nat) {
    forall k :: from <= k < |rows| ==> rows[k].id >= n
  }

  /** Ids of committed rows are never reused, except by a commit whose guard
      ReusesDeadId holds; that guard is exact. */
  lemma CommitAllocatesFreshIdsExactly(tx: Tx, s: Store)
    requires TxOk(tx, s.table) && StoreOk(s) && tx.state == Active
    requires RowsStillLive(tx, s)
    ensures Publish(tx, s).Ok?
    ensures !ReusesDeadId(tx, s) <==> FreshFrom(Publish(tx, s).value.rows, |Edited(tx, s).rows|, s.nextId)
  {
    hide TxOk, StoreOk, Publish, RowsStillLive, Edited, HasId, Appends;
    CommitMeaning(tx, s);
    var e := |Edited(tx, s).rows|;
    var rows := Publish(tx, s).value.rows;
    assert |rows| == e + |tx.inserts| by { CommitAppends(tx, s); }
    if !ReusesDeadId(tx, s) {
      forall k | e <= k < |rows| ensures rows[k].id >= s.nextId {
        PublishedIdBelow(tx, s, k - e);
      }
    } else {
      var i :| 0 <= i < |tx.inserts| && tx.inserts[i].id < s.nextId
               && (!HasId(s.rows, tx.inserts[i].id) || tx.inserts[i].id in tx.deletes);
      PublishedIdBelow(tx, s, i);
      assert rows[e + i].id < s.nextId;
    }
  }

  /** The owner's scan never shows two rows with one id, as long as its own inserts
      were numbered at or above the base's next id. */
  lemma ScanHasUniqueIds(tx: Tx, base: Store)
    requires TxOk(tx, base.table) && StoreOk(base) && tx.state == Active
    requires forall i :: 0 <= i < |tx.inserts| ==> tx.inserts[i].id >= base.nextId
    ensures Scan(tx, base).Ok? && UniqueIds(Scan(tx, base).value)
  {
    EditedOk(tx, base);
  }
}
