/** Row stores: rows in insertion order with a never-decreasing next id. */
module Rows {
  import opened Values
  import opened Catalog

  datatype Row = Row(id: nat, values: seq<Value>)
  datatype Store = Store(table: TableDef, rows: seq<Row>, nextId: nat)

  predicate HasId(rows: seq<Row>, id: nat) {
    exists i :: 0 <= i < |rows| && rows[i].id == id
  }

  ghost predicate UniqueIds(rows: seq<Row>) {
    forall i, j :: 0 <= i < j < |rows| ==> rows[i].id != rows[j].id
  }

  /** What every store reached through the public operations satisfies. */
  ghost predicate StoreOk(s: Store) {
    && UniqueIds(s.rows)
    && (forall i :: 0 <= i < |s.rows| ==> s.rows[i].id < s.nextId)
    && (forall i :: 0 <= i < |s.rows| ==> CheckRow(s.table, s.rows[i].values).Ok?)
  }

  // First-match removal and replacement, as the index searches do them.
  function RemoveId(rows: seq<Row>, id: nat): seq<Row> {
    if rows == [] then []
    else if rows[0].id == id then rows[1..]
    else [rows[0]] + RemoveId(rows[1..], id)
  }

  function ReplaceId(rows: seq<Row>, id: nat, values: seq<Value>): seq<Row> {
    if rows == [] then []
    else if rows[0].id == id then [Row(id, values)] + rows[1..]
    else [rows[0]] + ReplaceId(rows[1..], id, values)
  }

  function InsertWithId(s: Store, id: nat, values: seq<Value>): Result<Store> {
    if HasId(s.rows, id) then Err(DuplicateRow) else
    var _ :- CheckRow(s.table, values);
    Ok(s.(rows := s.rows + [Row(id, values)],
          nextId := if id >= s.nextId then id + 1 else s.nextId))
  }

  function UpdateRow(s: Store, id: nat, values: seq<Value>): Result<Store> {
    if !HasId(s.rows, id) then Err(UnknownRow) else
    var _ :- CheckRow(s.table, values);
    Ok(s.(rows := ReplaceId(s.rows, id, values)))
  }

  function DeleteRow(s: Store, id: nat): Result<Store> {
    if !HasId(s.rows, id) then Err(UnknownRow)
    else Ok(s.(rows := RemoveId(s.rows, id)))
  }

  /** The rows of `rows` that are not in `dead`, each with its replacement from
      `updated` if it has one: the committed half of a transaction's scan. */
  function View(rows: seq<Row>, dead: set<nat>, updated: map<nat, seq<Value>>): seq<Row> {
    if rows == [] then []
    else
      var rest := View(rows[1..], dead, updated);
      var r := rows[0];
      if r.id in dead then rest
      else if r.id in updated then [Row(r.id, updated[r.id])] + rest
      else [r] + rest
  }

  lemma {:induction false} ViewIdentity(rows: seq<Row>)
    ensures View(rows, {}, map[]) == rows
  {
    if rows != [] {
      ViewIdentity(rows[1..]);
      assert rows == [rows[0]] + rows[1..];
    }
  }

  // A view holds exactly the live ids.
  lemma {:induction false} ViewIds(rows: seq<Row>, dead: set<nat>, updated: map<nat, seq<Value>>, id: nat)
    ensures HasId(View(rows, dead, updated), id) <==> HasId(rows, id) && id !in dead
  {
    if rows != [] {
      ViewIds(rows[1..], dead, updated, id);
      HasIdCons(rows, id);
      var v := View(rows, dead, updated);
      if rows[0].id !in dead {
        HasIdCons(v, id);
        assert v[1..] == View(rows[1..], dead, updated);
      }
    }
  }

  lemma HasIdCons(rows: seq<Row>, id: nat)
    requires rows != []
    ensures HasId(rows, id) <==> rows[0].id == id || HasId(rows[1..], id)
  {
    if HasId(rows, id) && rows[0].id != id {
      var i :| 0 <= i < |rows| && rows[i].id == id;
      assert rows[1..][i - 1].id == id;
    }
    if HasId(rows[1..], id) {
      var i :| 0 <= i < |rows[1..]| && rows[1..][i].id == id;
      assert rows[i + 1].id == id;
    }
  }

  lemma HeadUnique(rows: seq<Row>)
    requires rows != [] && UniqueIds(rows)
    ensures !HasId(rows[1..], rows[0].id) && UniqueIds(rows[1..])
  {
    forall k | 0 <= k < |rows[1..]| ensures rows[1..][k].id != rows[0].id {
      assert rows[1..][k] == rows[k + 1];
    }
  }

  lemma HasIdConcat(a: seq<Row>, b: seq<Row>, id: nat)
    ensures HasId(a + b, id) <==> HasId(a, id) || HasId(b, id)
  {
    if HasId(a, id) {
      var i :| 0 <= i < |a| && a[i].id == id;
      assert (a + b)[i].id == id;
    }
    if HasId(b, id) {
      var i :| 0 <= i < |b| && b[i].id == id;
      assert (a + b)[|a| + i].id == id;
    }
    if HasId(a + b, id) {
      var i :| 0 <= i < |a + b| && (a + b)[i].id == id;
      assert if i < |a| then a[i].id == id else b[i - |a|].id == id;
    }
  }

  lemma {:induction false} ViewUnique(rows: seq<Row>, dead: set<nat>, updated: map<nat, seq<Value>>)
    requires UniqueIds(rows)
    ensures UniqueIds(View(rows, dead, updated))
  {
    if rows != [] {
      ViewUnique(rows[1..], dead, updated);
      var v := View(rows, dead, updated);
      if rows[0].id !in dead {
        ViewIds(rows[1..], dead, updated, rows[0].id);
        HeadUnique(rows);
        assert v[1..] == View(rows[1..], dead, updated);
        forall i, j | 0 <= i < j < |v| ensures v[i].id != v[j].id {
          assert v[j] == v[1..][j - 1];
          if i > 0 { assert v[i] == v[1..][i - 1]; }
        }
      }
    }
  }

  // Every row of a view is a row of the base or one of the replacements.
  lemma {:induction false} ViewRows(rows: seq<Row>, dead: set<nat>, updated: map<nat, seq<Value>>, i: nat)
    requires i < |View(rows, dead, updated)|
    ensures var r := View(rows, dead, updated)[i];
            r.id !in dead && HasId(rows, r.id) &&
            if r.id in updated then r.values == updated[r.id] else r in rows
  {
    if rows != [] {
      var v := View(rows, dead, updated);
      var rest := View(rows[1..], dead, updated);
      var k := if rows[0].id in dead then i else i - 1;
      if k >= 0 {
        ViewRows(rows[1..], dead, updated, k);
        assert v[i] == rest[k];
      }
      HasIdCons(rows, v[i].id);
    }
  }

  // Deleting a row of a view is viewing with one more dead id.
  lemma {:induction false} RemoveFromView(rows: seq<Row>, dead: set<nat>, updated: map<nat, seq<Value>>, d: nat)
    requires UniqueIds(rows) && d !in dead
    ensures RemoveId(View(rows, dead, updated), d) == View(rows, dead + {d}, updated)
  {
    if rows != [] {
      RemoveFromView(rows[1..], dead, updated, d);
      var v := View(rows, dead, updated);
      var rest := View(rows[1..], dead, updated);
      if rows[0].id == d {
        assert v[1..] == rest;
        ViewIds(rows[1..], dead, updated, d);
        HeadUnique(rows);
        RemoveAbsent(rest, d);
      } else if rows[0].id !in dead {
        assert v[1..] == rest;
      }
    }
  }

  lemma {:induction false} RemoveAbsent(rows: seq<Row>, id: nat)
    requires !HasId(rows, id)
    ensures RemoveId(rows, id) == rows
  {
    if rows != [] {
      HasIdCons(rows, id);
      RemoveAbsent(rows[1..], id);
    }
  }

  // Replacing a row of a view is viewing with one more replacement.
  lemma {:induction false} ReplaceInView(
    rows: seq<Row>, dead: set<nat>, updated: map<nat, seq<Value>>, id: nat, values: seq<Value>)
    requires UniqueIds(rows)
    requires id !in dead
    ensures ReplaceId(View(rows, dead, updated), id, values) == View(rows, dead, updated[id := values])
  {
    if rows != [] {
      ReplaceInView(rows[1..], dead, updated, id, values);
      var v := View(rows, dead, updated);
      var rest := View(rows[1..], dead, updated);
      if rows[0].id == id {
        assert v[1..] == rest;
        HeadUnique(rows);
        ViewIds(rows[1..], dead, updated, id);
        ReplaceAbsent(rest, id, values);
      } else if rows[0].id !in dead {
        assert v[1..] == rest;
      }
    }
  }

  lemma {:induction false} ReplaceAbsent(rows: seq<Row>, id: nat, values: seq<Value>)
    requires !HasId(rows, id)
    ensures ReplaceId(rows, id, values) == rows
  {
    if rows != [] {
      HasIdCons(rows, id);
      ReplaceAbsent(rows[1..], id, values);
    }
  }

  // ---- Cloning a store ------------------------------------------------------

  function CopyRows(target: Store, rows: seq<Row>): Result<Store>
    decreases |rows|
  {
    if rows == [] then Ok(target)
    else
      var next :- InsertWithId(target, rows[0].id, rows[0].values);
      CopyRows(next, rows[1..])
  }

  /** A copy of a store with its own table definition, row by row: how a generation
      is retained, a checkpoint is exported and a file is reopened. */
  function Clone(s: Store): Result<Store> {
    var table :- InitTable(SpecOf(s.table));
    var copy :- CopyRows(Store(table, [], 1), s.rows);
    Ok(copy.(nextId := s.nextId))
  }

  lemma {:induction false} CopyRowsExact(s: Store, next: nat, k: nat)
    requires StoreOk(s) && k <= |s.rows|
    ensures var r := CopyRows(Store(s.table, s.rows[..k], next), s.rows[k..]);
            r.Ok? && r.value.(nextId := s.nextId) == s
            && r.value.nextId <= if s.nextId >= next then s.nextId else next
    decreases |s.rows| - k
  {
    if k == |s.rows| {
      assert s.rows[..k] == s.rows;
    } else {
      var row := s.rows[k];
      assert !HasId(s.rows[..k], row.id);
      assert s.rows[..k] + [row] == s.rows[..k + 1];
      assert s.rows[k..][1..] == s.rows[k + 1..];
      CopyRowsExact(s, if row.id >= next then row.id + 1 else next, k + 1);
    }
  }

  /** A store clones to itself exactly when its table can be rebuilt; otherwise the
      clone is refused with the error of the rebuild. */
  lemma CloneExactly(s: Store)
    requires StoreOk(s) && Built(s.table)
    ensures Rebuildable(s.table) <==> Clone(s) == Ok(s)
    ensures !Rebuildable(s.table) ==>
              Clone(s) == Err(if DistinctIndexNames(s.table) then TypeMismatch else DuplicateObject)
  {
    RebuildExactly(s.table);
    assert s.rows[..0] == [] && s.rows[0..] == s.rows;
    CopyRowsExact(s, 1, 0);
  }

  predicate AllRebuildable(stores: seq<Store>) {
    forall t :: 0 <= t < |stores| ==> Rebuildable(stores[t].table)
  }

  lemma NoTables()
    ensures AllRebuildable([])
  {}

  lemma AllRebuildableCons(stores: seq<Store>)
    requires stores != []
    ensures AllRebuildable(stores) <==> Rebuildable(stores[0].table) && AllRebuildable(stores[1..])
  {
    hide Rebuildable;
    if Rebuildable(stores[0].table) && AllRebuildable(stores[1..]) {
      forall t | 0 <= t < |stores| ensures Rebuildable(stores[t].table) {
        if t > 0 { assert stores[1..][t - 1] == stores[t]; }
      }
    }
  }
}
