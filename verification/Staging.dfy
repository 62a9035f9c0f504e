/** What staging a row does to what the transaction's owner sees next, over every base the
    owner may be reading, and which ids a commit gives the staged inserts. */
module Staging {
  import opened Values
  import opened Catalog
  import opened Rows
  import Tx = Transactions

  // ---- Changed, removed and added rows --------------------------------------

  /** The same rows in the same order, the one with this id carrying new values. */
  ghost predicate Changed(before: seq<Row>, after: seq<Row>, id: nat, values: seq<Value>) {
    && |after| == |before|
    && forall i :: 0 <= i < |before| ==> after[i] == if before[i].id == id then Row(id, values) else before[i]
  }

  /** The same rows in the same order, without the one with this id. */
  ghost predicate Removed(before: seq<Row>, after: seq<Row>, id: nat) {
    exists k :: 0 <= k < |before| && before[k].id == id && after == before[..k] + before[k + 1..]
  }

  lemma {:induction false} ViewChanged(
      rows: seq<Row>, dead: set<nat>, updated: map<nat, seq<Value>>, id: nat, values: seq<Value>)
    requires id !in dead
    ensures Changed(View(rows, dead, updated), View(rows, dead, updated[id := values]), id, values)
  {
    if rows != [] { ViewChanged(rows[1..], dead, updated, id, values); }
  }

  // Replacements of ids the view does not show make no difference.
  lemma {:induction false} ViewIgnores(rows: seq<Row>, dead: set<nat>, a: map<nat, seq<Value>>, b: map<nat, seq<Value>>)
    requires forall id :: id !in dead ==> (id in a <==> id in b) && (id in a ==> a[id] == b[id])
    ensures View(rows, dead, a) == View(rows, dead, b)
  {
    if rows != [] { ViewIgnores(rows[1..], dead, a, b); }
  }

  lemma {:induction false} ViewRemoved(rows: seq<Row>, dead: set<nat>, updated: map<nat, seq<Value>>, id: nat)
    requires UniqueIds(rows) && HasId(rows, id) && id !in dead
    ensures Removed(View(rows, dead, updated), View(rows, dead + {id}, updated), id)
  {
    HeadUnique(rows);
    HasIdCons(rows, id);
    var before, after := View(rows, dead, updated), View(rows, dead + {id}, updated);
    var rest, left := View(rows[1..], dead, updated), View(rows[1..], dead + {id}, updated);
    if rows[0].id == id {
      ViewWithout(rows[1..], dead, updated, id);
      assert before[1..] == rest && before[..0] + before[1..] == after;
    } else {
      ViewRemoved(rows[1..], dead, updated, id);
      if rows[0].id !in dead {
        assert before == [before[0]] + rest && after == [before[0]] + left;
        hide View;
        RemovedBehind(before[0], rest, left, id);
      }
    }
  }

  lemma RemovedBehind(r: Row, before: seq<Row>, after: seq<Row>, id: nat)
    requires Removed(before, after, id)
    ensures Removed([r] + before, [r] + after, id)
  {
    var k :| 0 <= k < |before| && before[k].id == id && after == before[..k] + before[k + 1..];
    assert ([r] + before)[k + 1].id == id;
    assert [r] + after == ([r] + before)[..k + 1] + ([r] + before)[k + 2..];
  }

  lemma {:induction false} ViewWithout(rows: seq<Row>, dead: set<nat>, updated: map<nat, seq<Value>>, id: nat)
    requires !HasId(rows, id)
    ensures View(rows, dead + {id}, updated) == View(rows, dead, updated)
  {
    if rows != [] {
      HasIdCons(rows, id);
      ViewWithout(rows[1..], dead, updated, id);
    }
  }

  lemma {:induction false} ReplacementsSet(updates: seq<Row>, k: nat, values: seq<Value>)
    requires UniqueIds(updates) && k < |updates|
    ensures Tx.Replacements(updates[k := Row(updates[k].id, values)]) ==
            Tx.Replacements(updates)[updates[k].id := values]
  {
    var next := updates[k := Row(updates[k].id, values)];
    if k == 0 {
      assert next[1..] == updates[1..];
    } else {
      assert next[1..] == updates[1..][k - 1 := Row(updates[k].id, values)];
      HeadUnique(updates);
      ReplacementsSet(updates[1..], k - 1, values);
    }
  }

  lemma {:induction false} ReplacementsMore(updates: seq<Row>, r: Row)
    requires !HasId(updates, r.id)
    ensures Tx.Replacements(updates + [r]) == Tx.Replacements(updates)[r.id := r.values]
  {
    if updates == [] {
      assert updates + [r] == [r] && [r][1..] == [];
    } else {
      assert (updates + [r])[1..] == updates[1..] + [r];
      HasIdCons(updates, r.id);
      ReplacementsMore(updates[1..], r);
    }
  }

  lemma {:induction false} ReplacementsLess(updates: seq<Row>, k: nat)
    requires UniqueIds(updates) && k < |updates|
    ensures Tx.Replacements(Tx.RemoveAt(updates, k)) == Tx.Replacements(updates) - {updates[k].id}
  {
    var next := Tx.RemoveAt(updates, k);
    var rest := Tx.Replacements(updates[1..]);
    HeadUnique(updates);
    Tx.ReplacementKeys(updates[1..]);
    if k == 0 {
      assert next == updates[1..];
    } else {
      assert next[0] == updates[0] && next[1..] == Tx.RemoveAt(updates[1..], k - 1);
      ReplacementsLess(updates[1..], k - 1);
      assert updates[0].id != updates[k].id;
    }
    hide UniqueIds, HasId, Tx.RemoveAt;
    SetThenDrop(rest, updates[0].id, updates[0].values, updates[k].id);
  }

  lemma SetThenDrop(m: map<nat, seq<Value>>, id: nat, values: seq<Value>, other: nat)
    ensures id != other ==> (m - {other})[id := values] == m[id := values] - {other}
    ensures id == other && id !in m ==> m == m[id := values] - {other}
  {}

  // ---- What the owner sees next ---------------------------------------------

  // The owner reads the base and shows every id once.
  ghost predicate Reads(tx: Tx.Tx, base: Store, seen: seq<Row>) {
    UniqueIds(base.rows) && Tx.Scan(tx, base) == Ok(seen) && UniqueIds(seen)
  }

  lemma ScanParts(tx: Tx.Tx, base: Store, seen: seq<Row>, id: nat)
    requires Reads(tx, base, seen)
    ensures var view := View(base.rows, Tx.DeadIds(tx.deletes), Tx.Replacements(tx.updates));
            && seen == view + tx.inserts && tx.state.Active?
            && (HasId(seen, id) <==> HasId(view, id) || HasId(tx.inserts, id))
            && (HasId(view, id) <==> HasId(base.rows, id) && id !in tx.deletes)
            && !(HasId(view, id) && HasId(tx.inserts, id))
  {
    var view := View(base.rows, Tx.DeadIds(tx.deletes), Tx.Replacements(tx.updates));
    HasIdConcat(view, tx.inserts, id);
    ViewIds(base.rows, Tx.DeadIds(tx.deletes), Tx.Replacements(tx.updates), id);
    Apart(view, tx.inserts, id);
  }

  lemma Apart(a: seq<Row>, b: seq<Row>, id: nat)
    requires UniqueIds(a + b)
    ensures !(HasId(a, id) && HasId(b, id))
  {
    forall i, k | 0 <= i < |a| && 0 <= k < |b| ensures a[i].id != b[k].id {
      assert (a + b)[i].id == a[i].id && (a + b)[|a| + k].id == b[k].id;
    }
  }

  /** An UPDATE of a row the owner sees is accepted exactly when the new values fit and the
      row is the owner's own insert or still live. */
  lemma UpdateAcceptedExactly(tx: Tx.Tx, live: Store, base: Store, seen: seq<Row>, id: nat, values: seq<Value>)
    requires Reads(tx, base, seen) && HasId(seen, id)
    ensures var reachable := HasId(tx.inserts, id) || HasId(live.rows, id);
            var r := Tx.Update(tx, live, id, values);
            && (r.Ok? <==> reachable && CheckRow(live.table, values).Ok?)
            && (r.Err? ==> r.error == if reachable then CheckRow(live.table, values).error else UnknownRow)
  {
    ScanParts(tx, base, seen, id);
  }

  /** After an accepted UPDATE of a row the owner sees, it sees the same rows with the new
      values in that one. */
  lemma UpdateShows(tx: Tx.Tx, live: Store, base: Store, seen: seq<Row>, id: nat, values: seq<Value>)
    requires Reads(tx, base, seen) && HasId(seen, id) && UniqueIds(tx.updates)
    requires Tx.Update(tx, live, id, values).Ok?
    ensures Tx.Scan(Tx.Update(tx, live, id, values).value, base).Ok?
    ensures Changed(seen, Tx.Scan(Tx.Update(tx, live, id, values).value, base).value, id, values)
  {
    ScanParts(tx, base, seen, id);
    var next := Tx.Update(tx, live, id, values).value;
    var dead := Tx.DeadIds(tx.deletes);
    var view := View(base.rows, dead, Tx.Replacements(tx.updates));
    var own, earlier := Tx.FindIndex(tx.inserts, id), Tx.FindIndex(tx.updates, id);
    if own.Some? {
      forall i | 0 <= i < |seen|
        ensures (view + next.inserts)[i] == if seen[i].id == id then Row(id, values) else seen[i]
      {
        assert seen[|view| + own.value].id == id;
      }
    } else {
      if earlier.Some? {
        ReplacementsSet(tx.updates, earlier.value, values);
      } else {
        ReplacementsMore(tx.updates, Row(id, values));
      }
      ViewChanged(base.rows, dead, Tx.Replacements(tx.updates), id, values);
      ChangedFront(view, View(base.rows, dead, Tx.Replacements(next.updates)), tx.inserts, id, values);
    }
  }

  lemma ChangedFront(before: seq<Row>, after: seq<Row>, more: seq<Row>, id: nat, values: seq<Value>)
    requires Changed(before, after, id, values) && !HasId(more, id)
    ensures Changed(before + more, after + more, id, values)
  {}

  lemma RemovedFront(before: seq<Row>, after: seq<Row>, more: seq<Row>, id: nat)
    requires Removed(before, after, id)
    ensures Removed(before + more, after + more, id)
  {
    var k :| 0 <= k < |before| && before[k].id == id && after == before[..k] + before[k + 1..];
    assert after + more == (before + more)[..k] + (before + more)[k + 1..];
  }

  /** A DELETE of a row the owner sees is accepted exactly when the row is the owner's own
      insert or still live. */
  lemma DeleteAcceptedExactly(tx: Tx.Tx, live: Store, base: Store, seen: seq<Row>, id: nat)
    requires Reads(tx, base, seen) && HasId(seen, id)
    ensures var r := Tx.Delete(tx, live, id);
            && (r.Ok? <==> HasId(tx.inserts, id) || HasId(live.rows, id))
            && (r.Err? ==> r.error == UnknownRow)
  {
    ScanParts(tx, base, seen, id);
  }

  /** After an accepted DELETE of a row the owner sees, it sees the same rows without it. */
  lemma DeleteShows(tx: Tx.Tx, live: Store, base: Store, seen: seq<Row>, id: nat)
    requires Reads(tx, base, seen) && HasId(seen, id) && UniqueIds(tx.updates)
    requires Tx.Delete(tx, live, id).Ok?
    ensures Tx.Scan(Tx.Delete(tx, live, id).value, base).Ok?
    ensures Removed(seen, Tx.Scan(Tx.Delete(tx, live, id).value, base).value, id)
  {
    hide View, Tx.Replacements, UniqueIds, Removed, HasId;
    ScanParts(tx, base, seen, id);
    var next := Tx.Delete(tx, live, id).value;
    var dead, updated := Tx.DeadIds(tx.deletes), Tx.Replacements(tx.updates);
    var view := View(base.rows, dead, updated);
    var own := Tx.FindIndex(tx.inserts, id);
    if own.Some? {
      OneOut(view, tx.inserts, own.value);
    } else {
      RestDeletes(tx, live, id);
      DeletedView(tx, next, base, id);
      RemovedFront(view, View(base.rows, Tx.DeadIds(next.deletes), Tx.Replacements(next.updates)), tx.inserts, id);
    }
  }

  lemma OneOut(a: seq<Row>, b: seq<Row>, k: nat)
    requires k < |b|
    ensures Removed(a + b, a + Tx.RemoveAt(b, k), b[k].id)
  {
    var m := |a| + k;
    assert (a + b)[m] == b[k];
    assert a + Tx.RemoveAt(b, k) == (a + b)[..m] + (a + b)[m + 1..];
  }

  // Deleting a row that is not the owner's insert: one more dead id, no update of it left.
  lemma RestDeletes(tx: Tx.Tx, live: Store, id: nat)
    requires Tx.Delete(tx, live, id).Ok? && !HasId(tx.inserts, id) && UniqueIds(tx.updates)
    ensures var next := Tx.Delete(tx, live, id).value;
            && next.state == tx.state && next.inserts == tx.inserts
            && Tx.DeadIds(next.deletes) == Tx.DeadIds(tx.deletes) + {id}
            && Tx.Replacements(next.updates) - {id} == Tx.Replacements(tx.updates) - {id}
  {
    hide Tx.Replacements;
    var next := Tx.Delete(tx, live, id).value;
    var earlier := Tx.FindIndex(tx.updates, id);
    if earlier.Some? {
      ReplacementsLess(tx.updates, earlier.value);
      DropTwice(Tx.Replacements(tx.updates), id);
    }
  }

  lemma DropTwice(m: map<nat, seq<Value>>, id: nat)
    ensures m - {id} - {id} == m - {id}
  {}

  lemma DeletedView(tx: Tx.Tx, next: Tx.Tx, base: Store, id: nat)
    requires UniqueIds(base.rows) && HasId(base.rows, id) && id !in tx.deletes
    requires Tx.DeadIds(next.deletes) == Tx.DeadIds(tx.deletes) + {id}
    requires Tx.Replacements(next.updates) - {id} == Tx.Replacements(tx.updates) - {id}
    ensures Removed(View(base.rows, Tx.DeadIds(tx.deletes), Tx.Replacements(tx.updates)),
                    View(base.rows, Tx.DeadIds(next.deletes), Tx.Replacements(next.updates)), id)
  {
    hide View, UniqueIds, HasId, Removed, Tx.Replacements;
    var dead, before, after := Tx.DeadIds(tx.deletes), Tx.Replacements(tx.updates), Tx.Replacements(next.updates);
    forall k | k != id ensures (k in after <==> k in before) && (k in before ==> after[k] == before[k]) {
      SameElsewhere(before, after, id, k);
    }
    ViewIgnores(base.rows, dead + {id}, after, before);
    ViewRemoved(base.rows, dead, before, id);
  }

  lemma SameElsewhere(a: map<nat, seq<Value>>, b: map<nat, seq<Value>>, id: nat, k: nat)
    requires b - {id} == a - {id} && k != id
    ensures (k in b <==> k in a) && (k in a ==> b[k] == a[k])
  {
    assert k in b - {id} <==> k in b;
    assert k in a - {id} <==> k in a;
    if k in a { assert (b - {id})[k] == b[k] && (a - {id})[k] == a[k]; }
  }

  /** An INSERT is accepted exactly when the values fit, and then the owner sees one more
      row, the last, under the transaction's next id. */
  lemma InsertShows(tx: Tx.Tx, base: Store, seen: seq<Row>, table: TableDef, values: seq<Value>)
    requires Reads(tx, base, seen)
    ensures var r := Tx.Insert(tx, table, values);
            && (r.Ok? <==> CheckRow(table, values).Ok?)
            && (r.Err? ==> r.error == CheckRow(table, values).error)
            && (r.Ok? ==> Tx.Scan(r.value, base) == Ok(seen + [Row(tx.nextId, values)])
                          && r.value.nextId == tx.nextId + 1)
  {
    ScanParts(tx, base, seen, 0);
    hide CheckRow;
    var r := Tx.Insert(tx, table, values);
    if r.Ok? {
      var view := View(base.rows, Tx.DeadIds(tx.deletes), Tx.Replacements(tx.updates));
      assert view + (tx.inserts + [Row(tx.nextId, values)]) == seen + [Row(tx.nextId, values)];
    }
  }

  // ---- The row store's own operations ---------------------------------------

  lemma {:induction false} ReplaceChanges(rows: seq<Row>, id: nat, values: seq<Value>)
    requires UniqueIds(rows)
    ensures Changed(rows, ReplaceId(rows, id, values), id, values)
  {
    if rows != [] {
      HeadUnique(rows);
      if rows[0].id == id {
        forall i | 0 < i < |rows| ensures rows[i].id != id { assert rows[i] == rows[1..][i - 1]; }
      } else {
        ReplaceChanges(rows[1..], id, values);
      }
    }
  }

  lemma {:induction false} RemoveRemoves(rows: seq<Row>, id: nat)
    requires HasId(rows, id)
    ensures Removed(rows, RemoveId(rows, id), id)
  {
    HasIdCons(rows, id);
    if rows[0].id == id {
      assert rows[..0] + rows[1..] == rows[1..];
    } else {
      RemoveRemoves(rows[1..], id);
      RemovedBehind(rows[0], rows[1..], RemoveId(rows[1..], id), id);
      assert [rows[0]] + rows[1..] == rows;
    }
  }

  /** Updating a row of a store is refused for an unknown row, and otherwise exactly when the
      changed store would not be valid; it changes that row's values and nothing else. */
  lemma UpdateRowExactly(s: Store, id: nat, values: seq<Value>, after: seq<Row>)
    requires StoreOk(s) && Changed(s.rows, after, id, values)
    ensures UpdateRow(s, id, values) ==
            if !HasId(s.rows, id) then Err(UnknownRow)
            else if StoreOk(s.(rows := after)) then Ok(s.(rows := after)) else Err(CheckRow(s.table, values).error)
  {
    ReplaceChanges(s.rows, id, values);
    assert after == ReplaceId(s.rows, id, values);
    if HasId(s.rows, id) {
      var k :| 0 <= k < |s.rows| && s.rows[k].id == id;
      assert after[k] == Row(id, values);
      hide CheckRow, ReplaceId;
      if CheckRow(s.table, values).Ok? {
        forall i | 0 <= i < |after|
          ensures after[i].id == s.rows[i].id && CheckRow(s.table, after[i].values).Ok?
        {}
      }
    }
  }

  /** Inserting a row under an id is refused for an id in use, and otherwise exactly when the
      values do not fit; it appends the row and raises the next id above it if need be. */
  lemma InsertWithIdExactly(s: Store, id: nat, values: seq<Value>)
    requires StoreOk(s)
    ensures var r := InsertWithId(s, id, values);
            && (r.Ok? <==> !HasId(s.rows, id) && CheckRow(s.table, values).Ok?)
            && (r.Err? ==> r.error == if HasId(s.rows, id) then DuplicateRow else CheckRow(s.table, values).error)
            && (r.Ok? ==> && StoreOk(r.value) && r.value.table == s.table
                          && r.value.rows == s.rows + [Row(id, values)]
                          && IsNext([Row(id, values)], s.nextId, r.value.nextId))
  {
    hide CheckRow;
    var r := InsertWithId(s, id, values);
    if r.Ok? { assert [Row(id, values)][0].id == id; }
  }

  /** Deleting a row of a store takes out that row and nothing else, not its id either, and is
      refused exactly for an unknown row. */
  lemma DeleteRowExactly(s: Store, id: nat)
    requires StoreOk(s)
    ensures DeleteRow(s, id).Ok? <==> HasId(s.rows, id)
    ensures DeleteRow(s, id).Err? ==> DeleteRow(s, id).error == UnknownRow
    ensures DeleteRow(s, id).Ok? ==>
              var s1 := DeleteRow(s, id).value;
              s1.table == s.table && s1.nextId == s.nextId && Removed(s.rows, s1.rows, id)
  {
    if HasId(s.rows, id) { RemoveRemoves(s.rows, id); }
  }

  // ---- The ids of published inserts -----------------------------------------

  /** n is the larger of the floor and one more than the largest id of the rows. */
  ghost predicate IsNext(rows: seq<Row>, floor: nat, n: nat) {
    && floor <= n && (forall i :: 0 <= i < |rows| ==> rows[i].id < n)
    && (n == floor || HasId(rows, n - 1))
  }

  lemma NextIsUnique(rows: seq<Row>, floor: nat, m: nat, n: nat)
    requires IsNext(rows, floor, m) && IsNext(rows, floor, n)
    ensures m == n
  {}

  /** The i-th row published for an insert, and the id a store hands out afterwards, said
      of the published rows alone. */
  ghost predicate IdAssigned(rows: seq<Row>, at: nat, floor: nat, staged: nat)
    requires at < |rows|
  {
    if HasId(rows[..at], staged) then IsNext(rows[..at], floor, rows[at].id) else rows[at].id == staged
  }

  lemma {:induction false} AssignedIds(s: Store, floor: nat, inserts: seq<Row>, i: nat)
    requires StoreOk(s) && Tx.RowsOk(inserts, s.table) && IsNext(s.rows, floor, s.nextId)
    ensures var r := Tx.ApplyInserts(s, inserts);
            && r.Ok? && |r.value.rows| == |s.rows| + |inserts|
            && IsNext(r.value.rows, floor, r.value.nextId)
            && (i < |inserts| ==> IdAssigned(r.value.rows, |s.rows| + i, floor, inserts[i].id))
    decreases |inserts|
  {
    hide StoreOk, Tx.ApplyInserts, Tx.RowsOk, IdAssigned, IsNext, Tx.CommitId, InsertWithId;
    Tx.InsertsPublish(s, inserts);
    if inserts == [] {
      NothingInserted(s);
    } else {
      var s1 := Tx.InsertsHead(s, inserts);
      NextAfterInsert(s, floor, inserts[0].id, inserts[0].values, s1);
      RestOk(inserts, s.table);
      AssignedIds(s1, floor, inserts[1..], if i > 0 then i - 1 else |inserts|);
      var rows := Tx.ApplyInserts(s, inserts).value.rows;
      if i == 0 {
        HeadAssigned(s, floor, inserts[0].id, s1, rows);
      }
    }
  }

  lemma NothingInserted(s: Store)
    ensures Tx.ApplyInserts(s, []) == Ok(s)
  {}

  lemma RestOk(inserts: seq<Row>, table: TableDef)
    requires Tx.RowsOk(inserts, table) && inserts != []
    ensures Tx.RowsOk(inserts[1..], table)
  {}

  lemma NextAfterInsert(s: Store, floor: nat, staged: nat, values: seq<Value>, s1: Store)
    requires StoreOk(s) && IsNext(s.rows, floor, s.nextId)
    requires InsertWithId(s, Tx.CommitId(s, staged), values) == Ok(s1)
    ensures IsNext(s1.rows, floor, s1.nextId)
    ensures |s1.rows| == |s.rows| + 1 && s1.rows[..|s.rows|] == s.rows
    ensures IdAssigned(s1.rows, |s.rows|, floor, staged)
  {
    var id := Tx.CommitId(s, staged);
    HasIdConcat(s.rows, [Row(id, values)], s1.nextId - 1);
    assert s1.rows[..|s.rows|] == s.rows && s1.rows[|s.rows|].id == id;
  }

  lemma HeadAssigned(s: Store, floor: nat, staged: nat, s1: Store, rows: seq<Row>)
    requires |s1.rows| == |s.rows| + 1 <= |rows| && s1.rows[..|s.rows|] == s.rows
    requires rows[..|s.rows|] == s.rows && rows[|s.rows|].id == s1.rows[|s.rows|].id
    requires IdAssigned(s1.rows, |s.rows|, floor, staged)
    ensures IdAssigned(rows, |s.rows|, floor, staged)
  {}

  /** The ids a commit publishes its inserts under, for every live store: each keeps its
      staged id unless a row before it in the published store has that id, and then takes
      the larger of the store's next id and one more than the largest id before it. The
      store's next id afterwards is the larger of the old one and one more than the
      largest published id. */
  lemma PublishedIds(tx: Tx.Tx, s: Store, i: nat)
    requires Tx.TxOk(tx, s.table) && StoreOk(s) && tx.state.Active? && Tx.RowsStillLive(tx, s)
    ensures var p, e := Tx.Publish(tx, s), |Tx.Edited(tx, s).rows|;
            && p.Ok? && |p.value.rows| == e + |tx.inserts|
            && IsNext(p.value.rows, s.nextId, p.value.nextId)
            && (i < |tx.inserts| ==> IdAssigned(p.value.rows, e + i, s.nextId, tx.inserts[i].id))
  {
    hide Tx.Publish, Tx.RowsStillLive, IdAssigned, View, Tx.Replacements, Tx.ApplyInserts, CheckRow, Tx.Appends;
    Tx.CommitMeaning(tx, s);
    Tx.EditedOk(tx, s);
    AssignedIds(Tx.Edited(tx, s), s.nextId, tx.inserts, i);
  }
}
