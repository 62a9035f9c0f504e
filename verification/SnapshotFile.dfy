/** The payload of the snapshot file: every table with its columns, indexes and rows, the
    views and the procedures, and how a database is read back from it. */
module SnapshotFile {
  import opened Values
  import opened Catalog
  import opened Rows
  import opened Codec

  datatype Named = Named(name: Bytes, body: Bytes)
  datatype Database = Database(tables: seq<Store>, views: seq<Named>, procedures: seq<Named>)

  // ---- Columns --------------------------------------------------------------

  function EncodeType(t: ColumnType): Result<Bytes> {
    match t
    case IntegerType => Ok([1])
    case FloatType => Ok([2])
    case BooleanType => Ok([3])
    case TextType => Ok([4])
    case BlobType => Ok([5])
    case VectorType(d) => (var n :- EncodeCount(d); Ok([6] + ([FLOAT32_TAG] + n)))
  }

  function ReadType(bytes: Bytes): Result<(ColumnType, Bytes)> {
    var tag :- ReadByte(bytes);
    match tag.0
    case 1 => Ok((IntegerType, tag.1))
    case 2 => Ok((FloatType, tag.1))
    case 3 => Ok((BooleanType, tag.1))
    case 4 => Ok((TextType, tag.1))
    case 5 => Ok((BlobType, tag.1))
    case 6 => (var t :- ReadElementType(tag.1); var n :- ReadU32(t.1); Ok((VectorType(n.0), n.1)))
    case _ => Err(InvalidColumnType)
  }

  function EncodeDefault(d: Option<Value>): Result<Bytes> {
    match d
    case None => Ok(EncodeBool(false))
    case Some(v) => (var code :- EncodeValue(v); Ok(EncodeBool(true) + code))
  }

  function ReadDefault(bytes: Bytes): Result<(Option<Value>, Bytes)> {
    var has :- ReadBool(bytes);
    if !has.0 then Ok((None, has.1))
    else
      var v :- ReadValue(has.1);
      Ok((Some(v.0), v.1))
  }

  function EncodeColumn(c: Column): Result<Bytes> {
    var name :- EncodePrefixed(c.name);
    var ctype :- EncodeType(c.ctype);
    var default :- EncodeDefault(c.default);
    Ok(name + (ctype + (EncodeBool(c.nullable) + (default + (EncodeBool(c.primaryKey) + EncodeBool(c.autoIncrement))))))
  }

  function ReadColumn(bytes: Bytes): Result<(Column, Bytes)> {
    var name :- ReadPrefixed(bytes);
    var ctype :- ReadType(name.1);
    var nullable :- ReadBool(ctype.1);
    var default :- ReadDefault(nullable.1);
    var key :- ReadBool(default.1);
    var auto :- ReadBool(key.1);
    Ok((Column(name.0, ctype.0, nullable.0, default.0, key.0, auto.0), auto.1))
  }

  lemma TypeReads(t: ColumnType, tail: Bytes)
    requires EncodeType(t).Ok?
    ensures ReadType(EncodeType(t).value + tail) == Ok((t, tail))
  {
    var code := EncodeType(t).value;
    var body := code[1..] + tail;
    assert code + tail == [code[0]] + body;
    ByteReads(code[0], body);
    if t.VectorType? {
      var n := EncodeCount(t.dimension).value;
      assert body == [FLOAT32_TAG] + (n + tail);
      ByteReads(FLOAT32_TAG, n + tail);
      CountReads(t.dimension, tail);
    } else {
      assert body == tail;
    }
  }

  lemma DefaultReads(d: Option<Value>, tail: Bytes)
    requires EncodeDefault(d).Ok? && d != Some(Vector([]))
    ensures ReadDefault(EncodeDefault(d).value + tail) == Ok((d, tail))
  {
    if d.Some? {
      var code := EncodeValue(d.value).value;
      assert EncodeBool(true) + code + tail == EncodeBool(true) + (code + tail);
      BoolReads(true, code + tail);
      ValueReads(d.value, tail);
    } else {
      BoolReads(false, tail);
    }
  }

  lemma ColumnReads(c: Column, tail: Bytes)
    requires EncodeColumn(c).Ok? && c.default != Some(Vector([]))
    ensures ReadColumn(EncodeColumn(c).value + tail) == Ok((c, tail))
  {
    hide EncodePrefixed, EncodeType, EncodeDefault, EncodeBool, ReadPrefixed, ReadType, ReadBool, ReadDefault;
    var name := EncodePrefixed(c.name).value;
    var ctype := EncodeType(c.ctype).value;
    var default := EncodeDefault(c.default).value;
    var t5 := EncodeBool(c.autoIncrement) + tail;
    var t4 := EncodeBool(c.primaryKey) + t5;
    var t3 := default + t4;
    var t2 := EncodeBool(c.nullable) + t3;
    var t1 := ctype + t2;
    assert EncodeColumn(c).value + tail == name + t1;
    PrefixedReads(c.name, t1);
    TypeReads(c.ctype, t2);
    BoolReads(c.nullable, t3);
    DefaultReads(c.default, t4);
    BoolReads(c.primaryKey, t5);
    BoolReads(c.autoIncrement, tail);
  }

  // ---- Indexes and rows -----------------------------------------------------

  function EncodeIndex(x: IndexDef): Result<Bytes> {
    var name :- EncodePrefixed(x.name);
    var columns :- EncodeList(EncodePrefixed, x.columns);
    Ok(EncodeBool(x.primary) + (name + columns))
  }

  function ReadIndex(bytes: Bytes): Result<(IndexSpec, Bytes)> {
    var primary :- ReadBool(bytes);
    var name :- ReadPrefixed(primary.1);
    var columns :- ReadList(ReadPrefixed, name.1);
    Ok((IndexSpec(Some(name.0), columns.0, primary.0), columns.1))
  }

  lemma PrefixedReadsBack(data: Bytes)
    ensures ReadsBack(EncodePrefixed(data), ReadPrefixed, data)
  {
    if EncodePrefixed(data).Ok? {
      forall tail: Bytes ensures ReadPrefixed(EncodePrefixed(data).value + tail) == Ok((data, tail)) {
        PrefixedReads(data, tail);
      }
    }
  }

  // An index is read as the specification the table is rebuilt from.
  lemma IndexReads(x: IndexDef, tail: Bytes)
    requires EncodeIndex(x).Ok?
    ensures ReadIndex(EncodeIndex(x).value + tail) == Ok((IndexSpec(Some(x.name), x.columns, x.primary), tail))
  {
    var name := EncodePrefixed(x.name).value;
    var columns := EncodeList(EncodePrefixed, x.columns).value;
    var t2 := columns + tail;
    var t1 := name + t2;
    assert EncodeIndex(x).value + tail == EncodeBool(x.primary) + t1;
    BoolReads(x.primary, t1);
    PrefixedReads(x.name, t2);
    forall i | 0 <= i < |x.columns| ensures ReadsBack(EncodePrefixed(x.columns[i]), ReadPrefixed, x.columns[i]) {
      PrefixedReadsBack(x.columns[i]);
    }
    ListReadsBack(EncodePrefixed, ReadPrefixed, x.columns, x.columns, tail);
  }

  // Row ids are 64-bit words.
  function EncodeId(id: nat): Bytes { EncodeU64(id % WORD) }

  function EncodeRow(r: Row): Result<Bytes> {
    var values :- EncodeList(EncodeValue, r.values);
    Ok(EncodeId(r.id) + values)
  }

  function ReadRow(bytes: Bytes): Result<(Row, Bytes)> {
    var id :- ReadU64(bytes);
    var values :- ReadList(ReadValue, id.1);
    Ok((Row(id.0, values.0), values.1))
  }

  lemma ValuesRead(values: seq<Value>, tail: Bytes)
    requires Vector([]) !in values && EncodeList(EncodeValue, values).Ok?
    ensures ReadList(ReadValue, EncodeList(EncodeValue, values).value + tail) == Ok((values, tail))
  {
    hide EncodeValue, ReadValue, ReadsBack;
    forall i | 0 <= i < |values| ensures ReadsBack(EncodeValue(values[i]), ReadValue, values[i]) {
      ValueReadsBack(values[i]);
    }
    hide EncodeList, ReadList;
    ListReadsBack(EncodeValue, ReadValue, values, values, tail);
  }

  lemma RowReads(r: Row, tail: Bytes)
    requires EncodeRow(r).Ok? && r.id < WORD && Vector([]) !in r.values
    ensures ReadRow(EncodeRow(r).value + tail) == Ok((r, tail))
  {
    assert EncodeId(r.id) == EncodeU64(r.id);
    hide EncodeList, ReadList, EncodeId, EncodeU64, ReadU64;
    var values := EncodeList(EncodeValue, r.values).value;
    assert EncodeId(r.id) + values + tail == EncodeId(r.id) + (values + tail);
    U64Reads(r.id, values + tail);
    ValuesRead(r.values, tail);
  }

  // Rows are inserted one by one as they are read.
  function ReadRows(store: Store, n: nat, bytes: Bytes): Result<(Store, Bytes)>
    decreases n
  {
    if n == 0 then Ok((store, bytes))
    else
      var r :- ReadRow(bytes);
      var next :- InsertWithId(store, r.0.id, r.0.values);
      ReadRows(next, n - 1, r.1)
  }

  // ---- Tables ---------------------------------------------------------------

  function EncodeTable(s: Store): Result<Bytes> {
    var name :- EncodePrefixed(s.table.name);
    var columns :- EncodeList(EncodeColumn, s.table.columns);
    var indexes :- EncodeList(EncodeIndex, s.table.indexes);
    var rows :- EncodeList(EncodeRow, s.rows);
    Ok(name + (columns + (indexes + (EncodeId(s.nextId) + rows))))
  }

  predicate TableNamed(tables: seq<Store>, name: Bytes) {
    exists i :: 0 <= i < |tables| && NamesEqual(tables[i].table.name, name)
  }

  predicate Listed(entries: seq<Named>, name: Bytes) {
    exists i :: 0 <= i < |entries| && NamesEqual(entries[i].name, name)
  }

  function CreateTable(db: Database, spec: TableSpec): Result<TableDef> {
    if TableNamed(db.tables, spec.name) then Err(DuplicateObject)
    else if Listed(db.views, spec.name) || Listed(db.procedures, spec.name) then Err(NameConflict)
    else InitTable(spec)
  }

  function RegisterView(db: Database, v: Named): Result<Database> {
    if Listed(db.views, v.name) then Err(DuplicateObject)
    else if TableNamed(db.tables, v.name) || Listed(db.procedures, v.name) then Err(NameConflict)
    else Ok(db.(views := db.views + [v]))
  }

  function RegisterProcedure(db: Database, p: Named): Result<Database> {
    if Listed(db.procedures, p.name) then Err(DuplicateObject)
    else if TableNamed(db.tables, p.name) || Listed(db.views, p.name) then Err(NameConflict)
    else Ok(db.(procedures := db.procedures + [p]))
  }

  function ReadSpec(bytes: Bytes): Result<(TableSpec, Bytes)> {
    var name :- ReadPrefixed(bytes);
    var columns :- ReadList(ReadColumn, name.1);
    var indexes :- ReadList(ReadIndex, columns.1);
    Ok((TableSpec(name.0, columns.0, indexes.0), indexes.1))
  }

  function ReadTable(db: Database, bytes: Bytes): Result<(Database, Bytes)> {
    var spec :- ReadSpec(bytes);
    var table :- CreateTable(db, spec.0);
    var nextId :- ReadU64(spec.1);
    var n :- ReadU32(nextId.1);
    var store :- ReadRows(Store(table, [], nextId.0), n.0, n.1);
    Ok((db.(tables := db.tables + [store.0]), store.1))
  }

  function ReadTables(db: Database, n: nat, bytes: Bytes): Result<(Database, Bytes)>
    decreases n
  {
    if n == 0 then Ok((db, bytes))
    else
      var r :- ReadTable(db, bytes);
      ReadTables(r.0, n - 1, r.1)
  }

  function EncodeNamed(v: Named): Result<Bytes> {
    var name :- EncodePrefixed(v.name);
    var body :- EncodePrefixed(v.body);
    Ok(name + body)
  }

  function ReadNamed(bytes: Bytes): Result<(Named, Bytes)> {
    var name :- ReadPrefixed(bytes);
    var body :- ReadPrefixed(name.1);
    Ok((Named(name.0, body.0), body.1))
  }

  function ReadViews(db: Database, n: nat, bytes: Bytes): Result<(Database, Bytes)>
    decreases n
  {
    if n == 0 then Ok((db, bytes))
    else
      var r :- ReadNamed(bytes);
      var next :- RegisterView(db, r.0);
      ReadViews(next, n - 1, r.1)
  }

  function ReadProcedures(db: Database, n: nat, bytes: Bytes): Result<(Database, Bytes)>
    decreases n
  {
    if n == 0 then Ok((db, bytes))
    else
      var r :- ReadNamed(bytes);
      var next :- RegisterProcedure(db, r.0);
      ReadProcedures(next, n - 1, r.1)
  }

  function EncodePayload(db: Database): Result<Bytes> {
    var tables :- EncodeList(EncodeTable, db.tables);
    var views :- EncodeList(EncodeNamed, db.views);
    var procedures :- EncodeList(EncodeNamed, db.procedures);
    Ok(tables + (views + procedures))
  }

  function ReadPayload(bytes: Bytes): Result<(Database, Bytes)> {
    var n :- ReadU32(bytes);
    var tables :- ReadTables(Database([], [], []), n.0, n.1);
    ReadObjects(tables.0, tables.1)
  }

  function ReadObjects(db: Database, bytes: Bytes): Result<(Database, Bytes)> {
    var v :- ReadU32(bytes);
    var views :- ReadViews(db, v.0, v.1);
    var p :- ReadU32(views.1);
    ReadProcedures(views.0, p.0, p.1)
  }

  // ---- What a database keeps ------------------------------------------------

  /** A store as the engine keeps it: rows valid under a table that some CREATE TABLE
      built, ids within their 64-bit words. */
  ghost predicate KeptStore(s: Store) {
    StoreOk(s) && Built(s.table) && s.nextId < WORD
  }

  ghost predicate DistinctTables(tables: seq<Store>) {
    forall i, j :: 0 <= i < j < |tables| ==> !NamesEqual(tables[i].table.name, tables[j].table.name)
  }

  ghost predicate DistinctNames(entries: seq<Named>) {
    forall i, j :: 0 <= i < j < |entries| ==> !NamesEqual(entries[i].name, entries[j].name)
  }

  /** No two objects of the database share a name, whatever their kinds. */
  ghost predicate NamesApart(db: Database) {
    && DistinctTables(db.tables) && DistinctNames(db.views) && DistinctNames(db.procedures)
    && (forall i :: 0 <= i < |db.views| ==> !TableNamed(db.tables, db.views[i].name))
    && (forall i :: 0 <= i < |db.procedures| ==> !TableNamed(db.tables, db.procedures[i].name))
    && (forall i :: 0 <= i < |db.procedures| ==> !Listed(db.views, db.procedures[i].name))
  }

  // The name is that of some object.
  predicate Taken(db: Database, name: Bytes) {
    TableNamed(db.tables, name) || Listed(db.views, name) || Listed(db.procedures, name)
  }

  lemma ListedAfter(entries: seq<Named>, v: Named, name: Bytes)
    ensures Listed(entries + [v], name) <==> Listed(entries, name) || NamesEqual(v.name, name)
  {
    if i :| 0 <= i < |entries| && NamesEqual(entries[i].name, name) {
      assert NamesEqual((entries + [v])[i].name, name);
    }
    if NamesEqual(v.name, name) { assert (entries + [v])[|entries|] == v; }
  }

  /** A view is registered exactly when names stay apart with it, and the error tells a second
      view of that name from a name some other object has. */
  lemma ViewRegisteredExactly(db: Database, v: Named)
    requires NamesApart(db)
    ensures var r, db1 := RegisterView(db, v), db.(views := db.views + [v]);
            && (r.Ok? <==> NamesApart(db1)) && (r.Ok? <==> !Taken(db, v.name)) && (r.Ok? ==> r.value == db1)
            && (r.Err? ==> r.error == if Listed(db.views, v.name) then DuplicateObject else NameConflict)
  {
    hide NamesEqual;
    var db1 := db.(views := db.views + [v]);
    assert db1.views[|db.views|] == v;
    forall name: Bytes ensures Listed(db1.views, name) <==> Listed(db.views, name) || NamesEqual(v.name, name) {
      ListedAfter(db.views, v, name);
    }
    if Listed(db.views, v.name) {
      var i :| 0 <= i < |db.views| && NamesEqual(db.views[i].name, v.name);
      assert db1.views[i] == db.views[i];
    }
    if Listed(db.procedures, v.name) {
      var i :| 0 <= i < |db.procedures| && NamesEqual(db.procedures[i].name, v.name);
      NamesBack(db.procedures[i].name, v.name);
      assert Listed(db1.views, db.procedures[i].name);
    }
    if !Taken(db, v.name) {
      forall i | 0 <= i < |db.procedures| ensures !Listed(db1.views, db.procedures[i].name) {
        NamesBack(v.name, db.procedures[i].name);
      }
    }
  }

  lemma NamesBack(a: Bytes, b: Bytes)
    ensures NamesEqual(a, b) <==> NamesEqual(b, a)
  {}

  /** So is a procedure. */
  lemma ProcedureRegisteredExactly(db: Database, p: Named)
    requires NamesApart(db)
    ensures var r, db1 := RegisterProcedure(db, p), db.(procedures := db.procedures + [p]);
            && (r.Ok? <==> NamesApart(db1)) && (r.Ok? <==> !Taken(db, p.name)) && (r.Ok? ==> r.value == db1)
            && (r.Err? ==> r.error == if Listed(db.procedures, p.name) then DuplicateObject else NameConflict)
  {
    hide NamesEqual;
    var db1 := db.(procedures := db.procedures + [p]);
    assert db1.procedures[|db.procedures|] == p;
    if Listed(db.procedures, p.name) {
      var i :| 0 <= i < |db.procedures| && NamesEqual(db.procedures[i].name, p.name);
      assert db1.procedures[i] == db.procedures[i];
    }
    if !Taken(db, p.name) {
      forall i | 0 <= i < |db1.procedures|
        ensures !TableNamed(db.tables, db1.procedures[i].name) && !Listed(db.views, db1.procedures[i].name)
      {
        assert db1.procedures[i] == if i < |db.procedures| then db.procedures[i] else p;
      }
    }
  }

  /** A table can be created only under a name no object has, and then exactly when it can be
      built; with its store, names stay apart. */
  lemma TableCreatedExactly(db: Database, spec: TableSpec)
    ensures CreateTable(db, spec).Ok? <==> !Taken(db, spec.name) && InitTable(spec).Ok?
    ensures CreateTable(db, spec).Ok? ==> CreateTable(db, spec) == InitTable(spec)
    ensures CreateTable(db, spec).Err? ==>
              CreateTable(db, spec).error == if TableNamed(db.tables, spec.name) then DuplicateObject
                                             else if Taken(db, spec.name) then NameConflict
                                             else InitTable(spec).error
  {
    hide InitTable, TableNamed, Listed;
  }

  ghost predicate DatabaseOk(db: Database) {
    && NamesApart(db)
    && forall t :: 0 <= t < |db.tables| ==> KeptStore(db.tables[t])
  }

  // ---- Reading a table back -------------------------------------------------

  lemma InitColumnTyped(c: Column)
    requires InitColumn(c).Ok?
    ensures CheckType(c.ctype).Ok? && c.default != Some(Vector([]))
    ensures InitColumn(c).value.ctype == c.ctype && InitColumn(c).value.default == c.default
  {}

  // No column of a built table accepts or defaults to an empty vector.
  lemma BuiltColumn(t: TableDef, i: nat)
    requires Built(t) && i < |t.columns|
    ensures CheckType(t.columns[i].ctype).Ok? && t.columns[i].default != Some(Vector([]))
  {
    hide InitColumn, InitIndex, ValidateColumns, ValidateIndexes, InitIndexes, CheckType, Keyed;
    var spec :| InitTable(spec) == Ok(t);
    BuiltShape(spec, t);
    var columns := InitColumns(spec.columns, |spec.columns|).value;
    assert InitColumn(spec.columns[i]).Ok?;
    InitColumnTyped(spec.columns[i]);
    assert t.columns[i].ctype == spec.columns[i].ctype && t.columns[i].default == spec.columns[i].default;
  }

  lemma KeptRow(s: Store, k: nat)
    requires KeptStore(s) && k < |s.rows|
    ensures Vector([]) !in s.rows[k].values && s.rows[k].id < WORD
  {
    hide Built;
    var values := s.rows[k].values;
    assert CheckRow(s.table, values).Ok?;
    forall i | 0 <= i < |values| ensures values[i] != Vector([]) {
      AcceptedValue(s.table.columns, values, i);
      BuiltColumn(s.table, i);
    }
  }

  lemma SpecReads(t: TableDef, tail: Bytes)
    requires Built(t)
    requires EncodePrefixed(t.name).Ok? && EncodeList(EncodeColumn, t.columns).Ok?
             && EncodeList(EncodeIndex, t.indexes).Ok?
    ensures ReadSpec(EncodePrefixed(t.name).value
                     + (EncodeList(EncodeColumn, t.columns).value + (EncodeList(EncodeIndex, t.indexes).value + tail)))
            == Ok((SpecOf(t), tail))
  {
    var indexes := EncodeList(EncodeIndex, t.indexes).value;
    var columns := EncodeList(EncodeColumn, t.columns).value;
    PrefixedReads(t.name, columns + (indexes + tail));
    ColumnsRead(t, indexes + tail);
    IndexesRead(t, tail);
  }

  lemma ColumnsRead(t: TableDef, tail: Bytes)
    requires Built(t) && EncodeList(EncodeColumn, t.columns).Ok?
    ensures ReadList(ReadColumn, EncodeList(EncodeColumn, t.columns).value + tail) == Ok((t.columns, tail))
  {
    forall i | 0 <= i < |t.columns| ensures ReadsBack(EncodeColumn(t.columns[i]), ReadColumn, t.columns[i]) {
      BuiltColumn(t, i);
      ColumnReadsBack(t.columns[i]);
    }
    hide EncodeColumn, ReadColumn, ReadsBack, Built;
    ListReadsBack(EncodeColumn, ReadColumn, t.columns, t.columns, tail);
  }

  lemma ColumnReadsBack(c: Column)
    requires c.default != Some(Vector([]))
    ensures ReadsBack(EncodeColumn(c), ReadColumn, c)
  {
    hide EncodeColumn, ReadColumn;
    if EncodeColumn(c).Ok? {
      forall tail: Bytes ensures ReadColumn(EncodeColumn(c).value + tail) == Ok((c, tail)) { ColumnReads(c, tail); }
    }
  }

  lemma IndexesRead(t: TableDef, tail: Bytes)
    requires EncodeList(EncodeIndex, t.indexes).Ok?
    ensures ReadList(ReadIndex, EncodeList(EncodeIndex, t.indexes).value + tail) == Ok((SpecOf(t).indexes, tail))
  {
    forall i | 0 <= i < |t.indexes| ensures ReadsBack(EncodeIndex(t.indexes[i]), ReadIndex, SpecOf(t).indexes[i]) {
      IndexReadsBack(t.indexes[i]);
    }
    hide EncodeIndex, ReadIndex, ReadsBack;
    ListReadsBack(EncodeIndex, ReadIndex, t.indexes, SpecOf(t).indexes, tail);
  }

  lemma IndexReadsBack(x: IndexDef)
    ensures ReadsBack(EncodeIndex(x), ReadIndex, IndexSpec(Some(x.name), x.columns, x.primary))
  {
    hide EncodeIndex, ReadIndex;
    if EncodeIndex(x).Ok? {
      forall tail: Bytes
        ensures ReadIndex(EncodeIndex(x).value + tail) == Ok((IndexSpec(Some(x.name), x.columns, x.primary), tail))
      {
        IndexReads(x, tail);
      }
    }
  }

  lemma {:induction false} RowsRead(s: Store, k: nat, tail: Bytes)
    requires KeptStore(s) && k <= |s.rows| && EncodeAll(EncodeRow, s.rows[k..]).Ok?
    ensures ReadRows(Store(s.table, s.rows[..k], s.nextId), |s.rows| - k,
                     EncodeAll(EncodeRow, s.rows[k..]).value + tail)
            == Ok((s, tail))
    decreases |s.rows| - k
  {
    if k == |s.rows| {
      assert s.rows[..k] == s.rows;
      assert [] + tail == tail;
    } else {
      var row := s.rows[k];
      assert s.rows[k..][0] == row && s.rows[k..][1..] == s.rows[k + 1..];
      var first := EncodeRow(row).value;
      var rest := EncodeAll(EncodeRow, s.rows[k + 1..]).value;
      hide EncodeRow, ReadRow;
      assert first + rest + tail == first + (rest + tail);
      KeptRow(s, k);
      RowReads(row, rest + tail);
      RowInserts(s, k);
      RowsRead(s, k + 1, tail);
    }
  }

  lemma RowInserts(s: Store, k: nat)
    requires StoreOk(s) && k < |s.rows|
    ensures InsertWithId(Store(s.table, s.rows[..k], s.nextId), s.rows[k].id, s.rows[k].values)
            == Ok(Store(s.table, s.rows[..k + 1], s.nextId))
  {
    assert !HasId(s.rows[..k], s.rows[k].id);
    assert s.rows[..k] + [s.rows[k]] == s.rows[..k + 1];
  }

  function RebuildError(t: TableDef): Error {
    if DistinctIndexNames(t) then TypeMismatch else DuplicateObject
  }

  lemma TableLayout(s: Store, tail: Bytes)
    requires EncodeTable(s).Ok?
    ensures var rest := EncodeId(s.nextId)
            + (EncodeCount(|s.rows|).value + (EncodeAll(EncodeRow, s.rows).value + tail));
            EncodeTable(s).value + tail ==
            EncodePrefixed(s.table.name).value
            + (EncodeList(EncodeColumn, s.table.columns).value
               + (EncodeList(EncodeIndex, s.table.indexes).value + rest))
  {
    hide EncodePrefixed, EncodeColumn, EncodeIndex, EncodeRow, EncodeAll, EncodeId;
    var n := EncodeCount(|s.rows|).value;
    var all := EncodeAll(EncodeRow, s.rows).value;
    hide EncodeCount;
    assert EncodeList(EncodeRow, s.rows).value == n + all;
  }

  // What follows the definition: the next id and the rows.
  lemma ContentsRead(s: Store, tail: Bytes)
    requires KeptStore(s) && EncodeList(EncodeRow, s.rows).Ok?
    ensures var bytes := EncodeId(s.nextId)
            + (EncodeCount(|s.rows|).value + (EncodeAll(EncodeRow, s.rows).value + tail));
            && ReadU64(bytes) == Ok((s.nextId, bytes[8..]))
            && ReadU32(bytes[8..]) == Ok((|s.rows|, bytes[12..]))
            && ReadRows(Store(s.table, [], s.nextId), |s.rows|, bytes[12..]) == Ok((s, tail))
  {
    IdLength(s.nextId);
    CountLength(|s.rows|);
    hide KeptStore, EncodeRow, ReadRows, ReadU64, ReadU32, EncodeCount, EncodeId, EncodeU64, EncodeAll;
    var t1 := EncodeAll(EncodeRow, s.rows).value + tail;
    var t2 := EncodeCount(|s.rows|).value + t1;
    var bytes := EncodeId(s.nextId) + t2;
    assert bytes[8..] == t2 && bytes[12..] == t1;
    assert s.rows[0..] == s.rows && s.rows[..0] == [];
    U64Reads(s.nextId, t2);
    CountReads(|s.rows|, t1);
    RowsRead(s, 0, tail);
  }

  lemma IdLength(id: nat)
    ensures |EncodeId(id)| == 8
    ensures id < WORD ==> EncodeId(id) == EncodeU64(id)
  {}

  lemma CountLength(n: nat)
    ensures EncodeCount(n).Ok? ==> |EncodeCount(n).value| == 4
  {}

  /** A table reads back as itself, rows, row order and next id included, exactly when
      it can be rebuilt. */
  lemma TableReads(db: Database, s: Store, tail: Bytes)
    requires KeptStore(s) && EncodeTable(s).Ok?
    requires !TableNamed(db.tables, s.table.name) && db.views == [] && db.procedures == []
    ensures ReadTable(db, EncodeTable(s).value + tail) ==
            if Rebuildable(s.table) then Ok((db.(tables := db.tables + [s]), tail)) else Err(RebuildError(s.table))
  {
    TableLayout(s, tail);
    ContentsRead(s, tail);
    RebuildExactly(s.table);
    var rest := EncodeId(s.nextId) + (EncodeCount(|s.rows|).value + (EncodeAll(EncodeRow, s.rows).value + tail));
    SpecReads(s.table, rest);
    hide ReadSpec, ReadRows, InitTable, KeptStore, Rebuildable, EncodeTable, EncodeRow, EncodeAll, EncodeCount,
         ReadU32, ReadU64, EncodeId;
  }

  // ---- Reading a database back ----------------------------------------------

  ghost predicate KeptFrom(tables: seq<Store>, k: nat) {
    && DistinctTables(tables)
    && forall t :: k <= t < |tables| ==> KeptStore(tables[t])
  }

  lemma {:induction false} TablesRead(tables: seq<Store>, k: nat, tail: Bytes)
    requires k <= |tables| && KeptFrom(tables, k) && EncodeAll(EncodeTable, tables[k..]).Ok?
    ensures var r := ReadTables(Database(tables[..k], [], []), |tables| - k,
                                EncodeAll(EncodeTable, tables[k..]).value + tail);
            if AllRebuildable(tables[k..]) then r == Ok((Database(tables, [], []), tail))
            else r.Err? && r.error in {TypeMismatch, DuplicateObject}
    decreases |tables| - k
  {
    hide EncodeTable, ReadTable, KeptStore, KeptFrom, Rebuildable, RebuildError, AllRebuildable, TableNamed;
    if k == |tables| {
      assert AllRebuildable(tables[k..]) by { NoTables(); }
      assert tables[..k] == tables;
      assert [] + tail == tail;
    } else {
      var s := tables[k];
      assert tables[k..][0] == s && tables[k..][1..] == tables[k + 1..];
      var first := EncodeTable(s).value;
      var rest := EncodeAll(EncodeTable, tables[k + 1..]).value;
      KeptAt(tables, k);
      assert first + rest + tail == first + (rest + tail);
      TableReads(Database(tables[..k], [], []), s, rest + tail);
      assert tables[..k] + [s] == tables[..k + 1];
      TablesRead(tables, k + 1, tail);
      AllRebuildableCons(tables[k..]);
    }
  }

  lemma KeptAt(tables: seq<Store>, k: nat)
    requires k < |tables| && KeptFrom(tables, k)
    ensures KeptStore(tables[k]) && !TableNamed(tables[..k], tables[k].table.name) && KeptFrom(tables, k + 1)
    ensures RebuildError(tables[k].table) in {TypeMismatch, DuplicateObject}
  {
    hide KeptStore, NamesEqual, DistinctIndexNames;
  }

  lemma NamedReads(v: Named, tail: Bytes)
    requires EncodeNamed(v).Ok?
    ensures ReadNamed(EncodeNamed(v).value + tail) == Ok((v, tail))
  {
    hide EncodePrefixed, ReadPrefixed;
    var name, body := EncodePrefixed(v.name).value, EncodePrefixed(v.body).value;
    assert name + body + tail == name + (body + tail);
    PrefixedReads(v.name, body + tail);
    PrefixedReads(v.body, tail);
  }

  lemma {:induction false} ViewsRead(db: Database, k: nat, tail: Bytes)
    requires k <= |db.views| && NamesApart(db) && EncodeAll(EncodeNamed, db.views[k..]).Ok?
    ensures ReadViews(Database(db.tables, db.views[..k], []), |db.views| - k,
                      EncodeAll(EncodeNamed, db.views[k..]).value + tail)
            == Ok((Database(db.tables, db.views, []), tail))
    decreases |db.views| - k
  {
    if k == |db.views| {
      assert db.views[..k] == db.views;
      assert [] + tail == tail;
    } else {
      var v := db.views[k];
      assert db.views[k..][0] == v && db.views[k..][1..] == db.views[k + 1..];
      var first := EncodeNamed(v).value;
      var rest := EncodeAll(EncodeNamed, db.views[k + 1..]).value;
      assert !Listed(db.views[..k], v.name) && !TableNamed(db.tables, v.name);
      assert db.views[..k] + [v] == db.views[..k + 1];
      hide EncodeNamed, ReadNamed, NamesApart;
      assert first + rest + tail == first + (rest + tail);
      NamedReads(v, rest + tail);
      ViewsRead(db, k + 1, tail);
    }
  }

  lemma {:induction false} ProceduresRead(db: Database, k: nat, tail: Bytes)
    requires k <= |db.procedures| && NamesApart(db) && EncodeAll(EncodeNamed, db.procedures[k..]).Ok?
    ensures ReadProcedures(db.(procedures := db.procedures[..k]), |db.procedures| - k,
                           EncodeAll(EncodeNamed, db.procedures[k..]).value + tail)
            == Ok((db, tail))
    decreases |db.procedures| - k
  {
    if k == |db.procedures| {
      assert db.procedures[..k] == db.procedures;
      assert [] + tail == tail;
    } else {
      var p := db.procedures[k];
      assert db.procedures[k..][0] == p && db.procedures[k..][1..] == db.procedures[k + 1..];
      var first := EncodeNamed(p).value;
      var rest := EncodeAll(EncodeNamed, db.procedures[k + 1..]).value;
      assert !Listed(db.procedures[..k], p.name) && !TableNamed(db.tables, p.name) && !Listed(db.views, p.name);
      assert db.procedures[..k] + [p] == db.procedures[..k + 1];
      hide EncodeNamed, ReadNamed, NamesApart;
      assert first + rest + tail == first + (rest + tail);
      NamedReads(p, rest + tail);
      ProceduresRead(db, k + 1, tail);
    }
  }

  lemma AllTablesRead(tables: seq<Store>, tail: Bytes)
    requires KeptFrom(tables, 0) && EncodeAll(EncodeTable, tables).Ok?
    ensures var r := ReadTables(Database([], [], []), |tables|, EncodeAll(EncodeTable, tables).value + tail);
            if AllRebuildable(tables) then r == Ok((Database(tables, [], []), tail))
            else r.Err? && r.error in {TypeMismatch, DuplicateObject}
  {
    hide KeptFrom, EncodeAll, EncodeTable, ReadTables, AllRebuildable;
    assert tables[0..] == tables && tables[..0] == [];
    TablesRead(tables, 0, tail);
  }

  // The payload as counts and items, in reading order.
  lemma PayloadLayout(db: Database)
    requires EncodePayload(db).Ok?
    ensures EncodeCount(|db.tables|).Ok? && EncodeAll(EncodeTable, db.tables).Ok? && ObjectsFit(db)
    ensures EncodePayload(db).value ==
            EncodeCount(|db.tables|).value + (EncodeAll(EncodeTable, db.tables).value + Objects(db))
  {
    hide EncodeCount, EncodeAll, EncodeTable, EncodeNamed;
  }

  predicate ObjectsFit(db: Database) {
    && EncodeCount(|db.views|).Ok? && EncodeAll(EncodeNamed, db.views).Ok?
    && EncodeCount(|db.procedures|).Ok? && EncodeAll(EncodeNamed, db.procedures).Ok?
  }

  function Objects(db: Database): Bytes
    requires ObjectsFit(db)
  {
    EncodeCount(|db.views|).value + (EncodeAll(EncodeNamed, db.views).value
    + (EncodeCount(|db.procedures|).value + EncodeAll(EncodeNamed, db.procedures).value))
  }

  lemma ObjectsRead(db: Database, tail: Bytes)
    requires NamesApart(db) && ObjectsFit(db)
    ensures ReadObjects(Database(db.tables, [], []), Objects(db) + tail) == Ok((db, tail))
  {
    hide EncodeCount, EncodeNamed, ReadU32, NamesApart, EncodeAll, ReadViews, ReadProcedures;
    var t3 := EncodeAll(EncodeNamed, db.procedures).value + tail;
    var t2 := EncodeCount(|db.procedures|).value + t3;
    var t1 := EncodeAll(EncodeNamed, db.views).value + t2;
    assert Objects(db) + tail == EncodeCount(|db.views|).value + t1;
    assert db.views[0..] == db.views && db.views[..0] == [];
    assert db.procedures[0..] == db.procedures && db.procedures[..0] == [];
    assert db.(procedures := []) == Database(db.tables, db.views, []);
    CountReads(|db.views|, t1);
    CountReads(|db.procedures|, t3);
    ViewsRead(db, 0, t2);
    ProceduresRead(db, 0, tail);
  }

  /** A database read back from its payload is the same database, exactly when every
      table can be rebuilt, and the reader leaves exactly what follows; otherwise reading
      fails. */
  lemma PayloadReads(db: Database, tail: Bytes)
    requires DatabaseOk(db) && EncodePayload(db).Ok?
    ensures var r := ReadPayload(EncodePayload(db).value + tail);
            if AllRebuildable(db.tables) then r == Ok((db, tail))
            else r.Err? && r.error in {TypeMismatch, DuplicateObject}
  {
    assert KeptFrom(db.tables, 0) && NamesApart(db);
    hide EncodePayload, EncodeCount, EncodeAll, EncodeTable, EncodeNamed, ReadU32, DatabaseOk, NamesApart, KeptFrom,
      AllRebuildable, ReadTables, ReadObjects, Objects, ObjectsFit;
    PayloadLayout(db);
    var tables, rest := EncodeAll(EncodeTable, db.tables).value, Objects(db) + tail;
    Regrouped(EncodeCount(|db.tables|).value, tables, Objects(db), tail);
    CountReads(|db.tables|, tables + rest);
    AllTablesRead(db.tables, rest);
    ObjectsRead(db, tail);
  }

  lemma Regrouped(a: Bytes, b: Bytes, c: Bytes, tail: Bytes)
    ensures a + (b + c) + tail == a + (b + (c + tail))
  {}

  lemma PayloadRoundTrip(db: Database)
    requires DatabaseOk(db) && EncodePayload(db).Ok?
    ensures var r := ReadPayload(EncodePayload(db).value);
            if AllRebuildable(db.tables) then r == Ok((db, []))
            else r.Err? && r.error in {TypeMismatch, DuplicateObject}
  {
    hide EncodePayload, ReadPayload, DatabaseOk, AllRebuildable;
    PayloadReads(db, []);
    assert EncodePayload(db).value + [] == EncodePayload(db).value;
  }
}
