/** Whatever file the reader accepts, it makes a sound database of it: rows that fit their
    tables under distinct ids, tables some CREATE TABLE could have built, and names apart. */
module Decoding {
  import opened Values
  import opened Catalog
  import opened Rows
  import opened Codec
  import opened SnapshotFile
  import opened FileLayout
  import opened Staging
  import Header = SnapshotHeader

  // ---- Rows -----------------------------------------------------------------

  lemma ReadIdFits(bytes: Bytes)
    ensures ReadRow(bytes).Ok? ==> ReadRow(bytes).value.0.id < WORD
  {}

  /** Reading n rows into a sound store gives a sound store with exactly n more rows, in the
      order in which the input holds them, and consumes exactly their encodings. */
  lemma {:induction false} RowsOnly(store: Store, n: nat, bytes: Bytes)
    requires StoreOk(store) && ReadRows(store, n, bytes).Ok?
    ensures var (s, rest) := ReadRows(store, n, bytes).value;
            && StoreOk(s) && s.table == store.table && |s.rows| == |store.rows| + n && store.rows <= s.rows
            && EncodeAll(EncodeRow, s.rows[|store.rows|..]).Ok?
            && bytes == EncodeAll(EncodeRow, s.rows[|store.rows|..]).value + rest
            && (store.nextId <= WORD ==> s.nextId <= WORD)
    decreases n
  {
    hide ReadRow, EncodeRow, StoreOk, InsertWithId, EncodeAll;
    var (s, rest) := ReadRows(store, n, bytes).value;
    if n == 0 {
      assert s.rows[|store.rows|..] == [] && [] + rest == rest;
      NoneEncoded();
    } else {
      RowFits(store, bytes);
      var r := ReadRow(bytes).value;
      var next := InsertWithId(store, r.0.id, r.0.values).value;
      RowsOnly(next, n - 1, r.1);
      RowBefore(store.rows, s.rows, r.0, bytes, r.1, rest);
    }
  }

  lemma NoneEncoded()
    ensures EncodeAll(EncodeRow, []) == Ok([])
  {}

  lemma RowFits(store: Store, bytes: Bytes)
    requires StoreOk(store) && ReadRow(bytes).Ok?
    requires InsertWithId(store, ReadRow(bytes).value.0.id, ReadRow(bytes).value.0.values).Ok?
    ensures var (row, rest) := ReadRow(bytes).value;
            var next := InsertWithId(store, row.id, row.values).value;
            && EncodeRow(row).Ok? && bytes == EncodeRow(row).value + rest
            && StoreOk(next) && next.table == store.table && next.rows == store.rows + [row]
            && (store.nextId <= WORD ==> next.nextId <= WORD)
  {
    RowOnly(bytes);
    ReadIdFits(bytes);
    var row := ReadRow(bytes).value.0;
    hide ReadRow, EncodeRow, StoreOk, InsertWithId;
    InsertWithIdExactly(store, row.id, row.values);
  }

  // One more encoded row in front.
  lemma RowBefore(before: seq<Row>, after: seq<Row>, row: Row, bytes: Bytes, tail: Bytes, rest: Bytes)
    requires before + [row] <= after && EncodeRow(row).Ok? && bytes == EncodeRow(row).value + tail
    requires EncodeAll(EncodeRow, after[|before| + 1..]).Ok?
    requires tail == EncodeAll(EncodeRow, after[|before| + 1..]).value + rest
    ensures before <= after && EncodeAll(EncodeRow, after[|before|..]).Ok?
    ensures bytes == EncodeAll(EncodeRow, after[|before|..]).value + rest
  {
    hide EncodeRow;
    var more := after[|before|..];
    assert after[|before|] == (before + [row])[|before|];
    assert more[0] == row && more[1..] == after[|before| + 1..];
    var a, b := EncodeRow(row).value, EncodeAll(EncodeRow, more[1..]).value;
    assert a + (b + rest) == a + b + rest;
  }

  // ---- Tables ---------------------------------------------------------------

  ghost predicate Sound(db: Database) {
    && NamesApart(db)
    && forall t :: 0 <= t < |db.tables| ==>
         StoreOk(db.tables[t]) && Built(db.tables[t].table) && db.tables[t].nextId <= WORD
  }

  lemma TableJoins(db: Database, s: Store)
    requires NamesApart(db) && !Taken(db, s.table.name)
    ensures NamesApart(db.(tables := db.tables + [s]))
  {
    hide NamesEqual;
    var tables := db.tables + [s];
    forall name: Bytes
      ensures TableNamed(tables, name) <==> TableNamed(db.tables, name) || NamesEqual(s.table.name, name)
    {
      if i :| 0 <= i < |db.tables| && NamesEqual(db.tables[i].table.name, name) { assert tables[i] == db.tables[i]; }
      if NamesEqual(s.table.name, name) { assert tables[|db.tables|] == s; }
    }
    forall i | 0 <= i < |db.views| ensures !TableNamed(tables, db.views[i].name) {
      NamesBack(s.table.name, db.views[i].name);
    }
    forall i | 0 <= i < |db.procedures| ensures !TableNamed(tables, db.procedures[i].name) {
      NamesBack(s.table.name, db.procedures[i].name);
    }
  }

  lemma BuiltName(spec: TableSpec)
    requires InitTable(spec).Ok?
    ensures InitTable(spec).value.name == spec.name && Built(InitTable(spec).value)
  {}

  lemma TableOnly(db: Database, bytes: Bytes)
    requires Sound(db) && ReadTable(db, bytes).Ok?
    ensures Sound(ReadTable(db, bytes).value.0)
  {
    hide ReadSpec, CreateTable, ReadRows, InitTable, NamesApart, StoreOk, ReadU64, ReadU32;
    var spec := ReadSpec(bytes).value;
    TableCreatedExactly(db, spec.0);
    BuiltName(spec.0);
    var table := CreateTable(db, spec.0).value;
    var nextId := ReadU64(spec.1).value;
    var n := ReadU32(nextId.1).value;
    EmptyStoreOk(table, nextId.0);
    RowsOnly(Store(table, [], nextId.0), n.0, n.1);
    TableJoins(db, ReadRows(Store(table, [], nextId.0), n.0, n.1).value.0);
  }

  lemma EmptyStoreOk(table: TableDef, n: nat)
    ensures StoreOk(Store(table, [], n))
  {}

  lemma {:induction false} TablesOnly(db: Database, n: nat, bytes: Bytes)
    requires Sound(db) && ReadTables(db, n, bytes).Ok?
    ensures Sound(ReadTables(db, n, bytes).value.0)
    decreases n
  {
    hide Sound, ReadTable;
    if n > 0 {
      TableOnly(db, bytes);
      var r := ReadTable(db, bytes).value;
      TablesOnly(r.0, n - 1, r.1);
    }
  }

  // ---- Views, procedures and files ------------------------------------------

  lemma {:induction false} ViewsOnly(db: Database, n: nat, bytes: Bytes)
    requires Sound(db) && ReadViews(db, n, bytes).Ok?
    ensures Sound(ReadViews(db, n, bytes).value.0)
    decreases n
  {
    hide NamesApart, ReadNamed, RegisterView, StoreOk;
    if n > 0 {
      var r := ReadNamed(bytes).value;
      ViewRegisteredExactly(db, r.0);
      ViewsOnly(RegisterView(db, r.0).value, n - 1, r.1);
    }
  }

  lemma {:induction false} ProceduresOnly(db: Database, n: nat, bytes: Bytes)
    requires Sound(db) && ReadProcedures(db, n, bytes).Ok?
    ensures Sound(ReadProcedures(db, n, bytes).value.0)
    decreases n
  {
    hide NamesApart, ReadNamed, RegisterProcedure, StoreOk;
    if n > 0 {
      var r := ReadNamed(bytes).value;
      ProcedureRegisteredExactly(db, r.0);
      ProceduresOnly(RegisterProcedure(db, r.0).value, n - 1, r.1);
    }
  }

  /** Every file that is accepted, whoever wrote it, gives a sound database. */
  lemma AcceptedIsSound(file: Bytes)
    requires Header.Decode(file).Ok?
    ensures Sound(Header.Decode(file).value)
  {
    assert |file| >= 26;
    hide Header.Refusal, ReadU32, ReadTables, ReadViews, ReadProcedures, Sound;
    EmptyIsSound();
    var bytes := file[26..];
    var n := ReadU32(bytes).value;
    TablesOnly(Database([], [], []), n.0, n.1);
    var tables := ReadTables(Database([], [], []), n.0, n.1).value;
    var v := ReadU32(tables.1).value;
    ViewsOnly(tables.0, v.0, v.1);
    var views := ReadViews(tables.0, v.0, v.1).value;
    var p := ReadU32(views.1).value;
    ProceduresOnly(views.0, p.0, p.1);
  }

  lemma EmptyIsSound()
    ensures Sound(Database([], [], []))
  {}
}
