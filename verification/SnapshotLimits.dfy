/** The limits of the snapshot file: encoding fails exactly when some count does not fit
    its 32-bit word, and a file the writer accepts can be too big for the reader. */
module SnapshotLimits {
  import opened Values
  import opened Catalog
  import opened Rows
  import opened EngineInvariant
  import opened Generations
  import opened Codec
  import opened SnapshotFile
  import opened Durability
  import Header = SnapshotHeader

  // ---- What fits ------------------------------------------------------------

  predicate CountFits(n: nat) { n <= 0xFFFF_FFFF }

  predicate ValueFits(v: Value) {
    match v
    case Text(t) => CountFits(|t|)
    case Blob(b) => CountFits(|b|)
    case Vector(es) => CountFits(|es|)
    case _ => true
  }

  predicate ColumnFits(c: Column) {
    && CountFits(|c.name|)
    && (c.ctype.VectorType? ==> CountFits(c.ctype.dimension))
    && (c.default.Some? ==> ValueFits(c.default.value))
  }

  predicate IndexFits(x: IndexDef) {
    CountFits(|x.name|) && CountFits(|x.columns|) && forall i :: 0 <= i < |x.columns| ==> CountFits(|x.columns[i]|)
  }

  predicate RowFits(r: Row) {
    CountFits(|r.values|) && forall i :: 0 <= i < |r.values| ==> ValueFits(r.values[i])
  }

  predicate TableFits(s: Store) {
    && CountFits(|s.table.name|)
    && CountFits(|s.table.columns|) && (forall i :: 0 <= i < |s.table.columns| ==> ColumnFits(s.table.columns[i]))
    && CountFits(|s.table.indexes|) && (forall i :: 0 <= i < |s.table.indexes| ==> IndexFits(s.table.indexes[i]))
    && CountFits(|s.rows|) && (forall i :: 0 <= i < |s.rows| ==> RowFits(s.rows[i]))
  }

  predicate NamedFits(v: Named) { CountFits(|v.name|) && CountFits(|v.body|) }

  /** Every count the format stores in a 32-bit word fits one. */
  predicate Fits(db: Database) {
    && CountFits(|db.tables|) && (forall i :: 0 <= i < |db.tables| ==> TableFits(db.tables[i]))
    && CountFits(|db.views|) && (forall i :: 0 <= i < |db.views| ==> NamedFits(db.views[i]))
    && CountFits(|db.procedures|) && (forall i :: 0 <= i < |db.procedures| ==> NamedFits(db.procedures[i]))
  }

  // An encoding that can only fail because something is too large.
  predicate Encodes(r: Result<Bytes>, fits: bool) {
    if fits then r.Ok? else r == Err(ValueTooLarge)
  }

  lemma {:induction false} AllEncodes<T(!new)>(encode: T -> Result<Bytes>, fits: T -> bool, xs: seq<T>)
    requires forall i :: 0 <= i < |xs| ==> Encodes(encode(xs[i]), fits(xs[i]))
    ensures Encodes(EncodeAll(encode, xs), forall i :: 0 <= i < |xs| ==> fits(xs[i]))
  {
    if xs != [] {
      AllEncodes(encode, fits, xs[1..]);
      if forall i :: 0 <= i < |xs[1..]| ==> fits(xs[1..][i]) {
        if fits(xs[0]) {
          forall i | 0 <= i < |xs| ensures fits(xs[i]) { if i > 0 { assert xs[i] == xs[1..][i - 1]; } }
        }
      } else {
        var i :| 0 <= i < |xs[1..]| && !fits(xs[1..][i]);
        assert !fits(xs[i + 1]);
      }
    }
  }

  lemma ListEncodes<T(!new)>(encode: T -> Result<Bytes>, fits: T -> bool, xs: seq<T>)
    requires forall i :: 0 <= i < |xs| ==> Encodes(encode(xs[i]), fits(xs[i]))
    ensures Encodes(EncodeList(encode, xs), CountFits(|xs|) && forall i :: 0 <= i < |xs| ==> fits(xs[i]))
  {
    AllEncodes(encode, fits, xs);
  }

  lemma ValueEncodes(v: Value)
    ensures Encodes(EncodeValue(v), ValueFits(v))
  {
    if v.Vector? { ListEncodes(EncodeElement, _ => true, v.elements); }
  }

  lemma ColumnEncodes(c: Column)
    ensures Encodes(EncodeColumn(c), ColumnFits(c))
  {
    hide EncodeValue;
    if c.default.Some? { ValueEncodes(c.default.value); }
  }

  lemma IndexEncodes(x: IndexDef)
    ensures Encodes(EncodeIndex(x), IndexFits(x))
  {
    ListEncodes(EncodePrefixed, (name: Bytes) => CountFits(|name|), x.columns);
  }

  lemma RowEncodes(r: Row)
    ensures Encodes(EncodeRow(r), RowFits(r))
  {
    forall i | 0 <= i < |r.values| ensures Encodes(EncodeValue(r.values[i]), ValueFits(r.values[i])) {
      ValueEncodes(r.values[i]);
    }
    hide EncodeValue, ValueFits;
    ListEncodes(EncodeValue, ValueFits, r.values);
  }

  lemma TableEncodes(s: Store)
    ensures Encodes(EncodeTable(s), TableFits(s))
  {
    hide EncodeColumn, ColumnFits, EncodeIndex, IndexFits, EncodeRow, RowFits, EncodeId;
    forall i | 0 <= i < |s.table.columns|
      ensures Encodes(EncodeColumn(s.table.columns[i]), ColumnFits(s.table.columns[i]))
    {
      ColumnEncodes(s.table.columns[i]);
    }
    forall i | 0 <= i < |s.table.indexes|
      ensures Encodes(EncodeIndex(s.table.indexes[i]), IndexFits(s.table.indexes[i]))
    {
      IndexEncodes(s.table.indexes[i]);
    }
    forall i | 0 <= i < |s.rows| ensures Encodes(EncodeRow(s.rows[i]), RowFits(s.rows[i])) {
      RowEncodes(s.rows[i]);
    }
    hide EncodeList;
    ListEncodes(EncodeColumn, ColumnFits, s.table.columns);
    ListEncodes(EncodeIndex, IndexFits, s.table.indexes);
    ListEncodes(EncodeRow, RowFits, s.rows);
  }

  lemma NamedEncodes(v: Named)
    ensures Encodes(EncodeNamed(v), NamedFits(v))
  {}

  /** A database can be encoded if and only if all its counts fit, and is refused as too
      large otherwise. */
  lemma PayloadEncodesExactly(db: Database)
    ensures Encodes(EncodePayload(db), Fits(db))
  {
    hide EncodeTable, TableFits, EncodeNamed, NamedFits;
    forall i | 0 <= i < |db.tables| ensures Encodes(EncodeTable(db.tables[i]), TableFits(db.tables[i])) {
      TableEncodes(db.tables[i]);
    }
    forall v: Named ensures Encodes(EncodeNamed(v), NamedFits(v)) {
      NamedEncodes(v);
    }
    hide EncodeList;
    ListEncodes(EncodeTable, TableFits, db.tables);
    ListEncodes(EncodeNamed, NamedFits, db.views);
    ListEncodes(EncodeNamed, NamedFits, db.procedures);
  }

  /** A checkpoint gets as far as writing the file if and only if every table can be
      rebuilt and every count fits. */
  lemma SavesExactly(m: Machine)
    requires Kept(m)
    ensures SaveBytes(m).Ok? <==> AllRebuildable(m.h.st.stores) && Fits(OnFile(With(m, m.h.st.stores)))
  {
    hide Inv, Rebuild, AllRebuildable, NamesApart, StoresOk, Fits, EncodePayload, Written, FileOk;
    var db := OnFile(With(m, m.h.st.stores));
    InvStores(m.h.st);
    RebuildExact(db);
    PayloadEncodesExactly(db);
  }

  // ---- Too big to read ------------------------------------------------------

  lemma {:induction false} AllLength<T(!new)>(encode: T -> Result<Bytes>, xs: seq<T>, i: nat)
    requires EncodeAll(encode, xs).Ok? && i < |xs|
    ensures encode(xs[i]).Ok? && |encode(xs[i]).value| <= |EncodeAll(encode, xs).value|
  {
    if i > 0 { AllLength(encode, xs[1..], i - 1); }
  }

  lemma ListLength<T(!new)>(encode: T -> Result<Bytes>, xs: seq<T>, i: nat)
    requires EncodeList(encode, xs).Ok? && i < |xs|
    ensures encode(xs[i]).Ok? && |encode(xs[i]).value| <= |EncodeList(encode, xs).value|
  {
    AllLength(encode, xs, i);
  }

  ghost predicate HoldsBlob(r: Row, c: nat, size: nat) {
    c < |r.values| && r.values[c].Blob? && size <= |r.values[c].blob|
  }

  lemma RowLength(r: Row, c: nat, size: nat)
    requires EncodeRow(r).Ok? && HoldsBlob(r, c, size)
    ensures size <= |EncodeRow(r).value|
  {
    ListLength(EncodeValue, r.values, c);
    hide EncodeList;
  }

  lemma TableLength(s: Store, k: nat, c: nat, size: nat)
    requires EncodeTable(s).Ok? && k < |s.rows| && HoldsBlob(s.rows[k], c, size)
    ensures size <= |EncodeTable(s).value|
  {
    hide EncodeList, EncodeRow, EncodeColumn, EncodeIndex, HoldsBlob, EncodeId, EncodePrefixed;
    ListLength(EncodeRow, s.rows, k);
    RowLength(s.rows[k], c, size);
  }

  lemma BlobLength(db: Database, t: nat, k: nat, c: nat, size: nat)
    requires EncodePayload(db).Ok? && t < |db.tables| && k < |db.tables[t].rows|
             && HoldsBlob(db.tables[t].rows[k], c, size)
    ensures size <= |EncodePayload(db).value|
  {
    hide EncodeList, EncodeTable, EncodeNamed, HoldsBlob;
    ListLength(EncodeTable, db.tables, t);
    TableLength(db.tables[t], k, c, size);
  }

  /** A committed blob beyond the reader's bound: if its database is saved, the file
      replaces the one before it and cannot be reopened. */
  lemma BigBlobIsUnreadable(m: Machine, t: nat, k: nat, c: nat)
    requires Kept(m) && SaveBytes(m).Ok? && t < |m.h.st.stores| && k < |m.h.st.stores[t].rows|
    requires HoldsBlob(m.h.st.stores[t].rows[k], c, MAX_SNAPSHOT_BYTES + 1)
    ensures var m1 := Next(m, Save(true)); m1.file.Some? && Reopen(m1.file.value) == Err(FileTooBig)
  {
    var db := OnFile(With(m, m.h.st.stores));
    SaveKeeps(m, true);
    var m1 := Next(m, Save(true));
    assert Header.Encode(db) == Ok(m1.file.value) by { SavedIsEncoded(m1); }
    hide SaveBytes, Kept, EncodePayload, Written, Reopen, HoldsBlob;
    PayloadWithin(db);
    BlobLength(db, t, k, c, MAX_SNAPSHOT_BYTES + 1);
    TooBig(m1.file.value);
  }

  lemma TooBig(file: Bytes)
    requires |file| > MAX_SNAPSHOT_BYTES
    ensures Reopen(file) == Err(FileTooBig)
  {}

  lemma SavedIsEncoded(m: Machine)
    requires Kept(m) && m.saved.Some?
    ensures m.file.Some? && Header.Encode(OnFile(With(m, m.saved.value.stores))) == Ok(m.file.value)
  {}

  const BLOB_COLUMN := Column([98], BlobType, true, None, false, false)
  const BLOB_TABLE := TableDef([98], [BLOB_COLUMN], [])

  function BigStore(b: Bytes): Store { Store(BLOB_TABLE, [Row(1, [Blob(b)])], 2) }

  lemma BlobTableBuilds()
    ensures Built(BLOB_TABLE) && Rebuildable(BLOB_TABLE)
  {
    var spec := TableSpec([98], [BLOB_COLUMN], []);
    assert InitColumns(spec.columns, 0) == Ok([]);
    assert InitColumns(spec.columns, 1) == Ok([] + [BLOB_COLUMN]);
    assert InitTable(spec) == Ok(BLOB_TABLE) by {
      assert ValidateColumns(spec.columns, 0).Ok?;
      assert ValidateColumns(spec.columns, 1).Ok?;
      assert KeyColumns([] + [BLOB_COLUMN], []) == [BLOB_COLUMN];
      assert InitIndexes(spec.indexes, 0) == Ok([]);
    }
  }

  lemma BlobFits(b: Bytes)
    ensures CheckRow(BLOB_TABLE, [Blob(b)]).Ok?
  {
    assert [BLOB_COLUMN][1..] == [] && [Blob(b)][1..] == [];
    assert CheckValue(BLOB_COLUMN, Blob(b)).Ok?;
    assert CheckValues([BLOB_COLUMN], [Blob(b)]).Ok?;
  }

  lemma BigStoreOk(b: Bytes)
    ensures StoresOk([BigStore(b)]) && AllRebuildable([BigStore(b)])
  {
    hide Built, Rebuildable, CheckRow;
    BlobTableBuilds();
    BlobFits(b);
  }

  lemma BigDatabaseOk(b: Bytes)
    requires CountFits(|b|)
    ensures NamesApart(Database([BigStore(b)], [], [])) && Fits(Database([BigStore(b)], [], []))
  {
    hide NamesEqual;
    assert RowFits(Row(1, [Blob(b)]));
    assert ColumnFits(BLOB_COLUMN);
    assert TableFits(BigStore(b));
  }

  /** Such a database exists, for every blob between the reader's bound and the 32-bit
      count: it is opened, saved successfully, and cannot be opened again. */
  lemma SavedAndLost(b: Bytes, q: nat, l: nat)
    requires MAX_SNAPSHOT_BYTES < |b| && CountFits(|b|)
    ensures var m := Launch(Running([BigStore(b)], [], []), q, l);
            var m1 := Next(m, Save(true));
            && SaveBytes(m).Ok? && m1.file.Some? && Reopen(m1.file.value) == Err(FileTooBig)
  {
    hide SaveBytes, Reopen, Fits, NamesApart, StoresOk, AllRebuildable, Kept;
    BigStoreOk(b);
    BigDatabaseOk(b);
    assert HoldsBlob(Row(1, [Blob(b)]), 0, MAX_SNAPSHOT_BYTES + 1);
    var r := Running([BigStore(b)], [], []);
    var m := Launch(r, q, l);
    assert OnFile(r) == Database([BigStore(b)], [], []);
    LaunchKept(r, q, l);
    SavesExactly(m);
    BigBlobIsUnreadable(m, 0, 0, 0);
  }
}
