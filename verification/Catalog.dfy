/** Table definitions: how a table is built from its specification, which rows it
    accepts, and when a built table can be built again from itself. Cloning a
    table for a retained generation, exporting it for a checkpoint and reading it
    back from a file all rebuild it this way. */
module Catalog {
  import opened Values

  datatype ColumnType =
    IntegerType | FloatType | BooleanType | TextType | BlobType | VectorType(dimension: nat)

  // Specification and definition of a column have the same fields.
  datatype Column = Column(
    name: Bytes, ctype: ColumnType, nullable: bool, default: Option<Value>,
    primaryKey: bool, autoIncrement: bool)

  datatype IndexSpec = IndexSpec(name: Option<Bytes>, columns: seq<Bytes>, primary: bool)
  datatype IndexDef = IndexDef(name: Bytes, columns: seq<Bytes>, primary: bool)
  datatype TableSpec = TableSpec(name: Bytes, columns: seq<Column>, indexes: seq<IndexSpec>)
  datatype TableDef = TableDef(name: Bytes, columns: seq<Column>, indexes: seq<IndexDef>)

  // The bytes of "PRIMARY".
  const PRIMARY_INDEX_NAME: Bytes := [80, 82, 73, 77, 65, 82, 89]

  function CheckType(t: ColumnType): Result<()> {
    if t.VectorType? && t.dimension == 0 then Err(InvalidVectorDimension) else Ok(())
  }

  function AcceptsValue(t: ColumnType, v: Value): Result<()> {
    match (t, v)
    case (IntegerType, Integer(_)) => Ok(())
    case (FloatType, Float(_)) => Ok(())
    case (BooleanType, Boolean(_)) => Ok(())
    case (TextType, Text(_)) => Ok(())
    case (BlobType, Blob(_)) => Ok(())
    case (VectorType(d), Vector(es)) => if |es| == d then Ok(()) else Err(VectorDimensionMismatch)
    case _ => Err(TypeMismatch)
  }

  function CheckValue(c: Column, v: Value): Result<()> {
    if v.Null? then (if c.nullable then Ok(()) else Err(TypeMismatch))
    else AcceptsValue(c.ctype, v)
  }

  function CheckValues(columns: seq<Column>, values: seq<Value>): Result<()>
    requires |columns| == |values|
  {
    if columns == [] then Ok(())
    else
      var _ :- CheckValue(columns[0], values[0]);
      CheckValues(columns[1..], values[1..])
  }

  function CheckRow(table: TableDef, values: seq<Value>): Result<()> {
    if |values| != |table.columns| then Err(ColumnCountMismatch)
    else CheckValues(table.columns, values)
  }

  // A value that passes the row check sits under a column of its own type.
  lemma {:induction false} AcceptedValue(columns: seq<Column>, values: seq<Value>, i: nat)
    requires |columns| == |values| && i < |values|
    requires CheckValues(columns, values).Ok?
    ensures CheckValue(columns[i], values[i]).Ok?
  {
    if i > 0 { AcceptedValue(columns[1..], values[1..], i - 1); }
  }

  predicate EffectiveNullable(c: Column) {
    c.nullable && !c.primaryKey && !c.autoIncrement
  }

  predicate KnownColumn(columns: seq<Column>, name: Bytes) {
    exists i :: 0 <= i < |columns| && NamesEqual(columns[i].name, name)
  }

  // The checks over the first n columns, in order.
  function ValidateColumns(columns: seq<Column>, n: nat): Result<()>
    requires n <= |columns|
  {
    if n == 0 then Ok(())
    else
      var _ :- ValidateColumns(columns, n - 1);
      var c := columns[n - 1];
      var _ :- CheckType(c.ctype);
      if c.autoIncrement && !c.ctype.IntegerType? then Err(TypeMismatch)
      else if KnownColumn(columns[..n - 1], c.name) then Err(DuplicateColumn)
      else Ok(())
  }

  function PrimaryCount(indexes: seq<IndexSpec>, n: nat): nat
    requires n <= |indexes|
  {
    if n == 0 then 0
    else PrimaryCount(indexes, n - 1) + if indexes[n - 1].primary then 1 else 0
  }

  // An earlier index was given the same name explicitly.
  predicate NameTaken(indexes: seq<IndexSpec>, n: nat)
    requires n < |indexes|
  {
    && indexes[n].name.Some?
    && exists k :: 0 <= k < n && indexes[k].name.Some? && NamesEqual(indexes[k].name.value, indexes[n].name.value)
  }

  predicate ColumnsKnown(columns: seq<Column>, names: seq<Bytes>) {
    forall j :: 0 <= j < |names| ==> KnownColumn(columns, names[j])
  }

  function ValidateIndexes(columns: seq<Column>, indexes: seq<IndexSpec>, n: nat): Result<()>
    requires n <= |indexes|
  {
    if n == 0 then Ok(())
    else
      var _ :- ValidateIndexes(columns, indexes, n - 1);
      if PrimaryCount(indexes, n) > 1 then Err(DuplicateObject)
      else if NameTaken(indexes, n - 1) then Err(DuplicateObject)
      else if !ColumnsKnown(columns, indexes[n - 1].columns) then Err(UnknownObject)
      else Ok(())
  }

  function InitColumn(c: Column): Result<Column> {
    var _ :- CheckType(c.ctype);
    var _ :- match c.default
             case None => Ok(())
             case Some(Null) => if EffectiveNullable(c) then Ok(()) else Err(TypeMismatch)
             case Some(v) => AcceptsValue(c.ctype, v);
    Ok(c.(nullable := EffectiveNullable(c)))
  }

  function InitColumns(columns: seq<Column>, n: nat): (r: Result<seq<Column>>)
    requires n <= |columns|
    ensures r.Ok? ==> |r.value| == n && forall i :: 0 <= i < n ==> InitColumn(columns[i]) == Ok(r.value[i])
    ensures r.Err? ==> exists i :: 0 <= i < n && InitColumn(columns[i]) == Err(r.error)
  {
    if n == 0 then Ok([])
    else
      var init :- InitColumns(columns, n - 1);
      var c :- InitColumn(columns[n - 1]);
      Ok(init + [c])
  }

  function InitIndex(x: IndexSpec): Result<IndexDef> {
    if x.columns == [] then Err(UnknownObject)
    else
      var name := if x.name.Some? then x.name.value
                  else if x.primary then PRIMARY_INDEX_NAME else x.columns[0];
      Ok(IndexDef(name, x.columns, x.primary))
  }

  function InitIndexes(indexes: seq<IndexSpec>, n: nat): (r: Result<seq<IndexDef>>)
    requires n <= |indexes|
    ensures r.Ok? ==> |r.value| == n && forall i :: 0 <= i < n ==> InitIndex(indexes[i]) == Ok(r.value[i])
    ensures r.Err? ==> exists i :: 0 <= i < n && InitIndex(indexes[i]) == Err(r.error)
  {
    if n == 0 then Ok([])
    else
      var init :- InitIndexes(indexes, n - 1);
      var x :- InitIndex(indexes[n - 1]);
      Ok(init + [x])
  }

  // Column i is named by a primary index. Column names are pairwise different
  // by the time this is asked, so the first match the code takes is the only one.
  predicate Keyed(column: Column, indexes: seq<IndexSpec>) {
    exists k :: 0 <= k < |indexes| && indexes[k].primary && Names(indexes[k].columns, column.name)
  }

  predicate Names(names: seq<Bytes>, name: Bytes) {
    exists j :: 0 <= j < |names| && NamesEqual(names[j], name)
  }

  function KeyColumns(columns: seq<Column>, indexes: seq<IndexSpec>): (r: seq<Column>)
    ensures |r| == |columns|
  {
    seq(|columns|, i requires 0 <= i < |columns| =>
      if Keyed(columns[i], indexes) then columns[i].(primaryKey := true, nullable := false) else columns[i])
  }

  function InitTable(spec: TableSpec): Result<TableDef> {
    var _ :- ValidateColumns(spec.columns, |spec.columns|);
    var _ :- ValidateIndexes(spec.columns, spec.indexes, |spec.indexes|);
    var columns :- InitColumns(spec.columns, |spec.columns|);
    var indexes :- InitIndexes(spec.indexes, |spec.indexes|);
    Ok(TableDef(spec.name, KeyColumns(columns, spec.indexes), indexes))
  }

  /** The specification a finished table is rebuilt from: every index now has a name. */
  function SpecOf(t: TableDef): (spec: TableSpec)
    ensures |spec.indexes| == |t.indexes|
  {
    TableSpec(t.name, t.columns, seq(|t.indexes|, i requires 0 <= i < |t.indexes| =>
      IndexSpec(Some(t.indexes[i].name), t.indexes[i].columns, t.indexes[i].primary)))
  }

  /** The guard a caller can check on a table: its index names differ and no
      NOT NULL column has NULL as its default. */
  predicate DistinctIndexNames(t: TableDef) {
    forall i, j :: 0 <= i < j < |t.indexes| ==> !NamesEqual(t.indexes[i].name, t.indexes[j].name)
  }

  predicate NoNullDefaultOnKey(t: TableDef) {
    forall i :: 0 <= i < |t.columns| ==> t.columns[i].nullable || t.columns[i].default != Some(Null)
  }

  predicate Rebuildable(t: TableDef) {
    DistinctIndexNames(t) && NoNullDefaultOnKey(t)
  }

  // A table is built when some specification produced it.
  ghost predicate Built(t: TableDef) {
    exists spec :: InitTable(spec) == Ok(t)
  }

  // ---- Rebuilding a built table -------------------------------------------

  // What building keeps of each column.
  ghost predicate Kin(a: seq<Column>, b: seq<Column>) {
    && |a| == |b|
    && forall i :: 0 <= i < |a| ==>
         a[i].name == b[i].name && a[i].ctype == b[i].ctype && a[i].autoIncrement == b[i].autoIncrement
  }

  lemma KinKnown(a: seq<Column>, b: seq<Column>, name: Bytes)
    requires Kin(a, b)
    ensures KnownColumn(a, name) == KnownColumn(b, name)
  {
    if KnownColumn(a, name) {
      var i :| 0 <= i < |a| && NamesEqual(a[i].name, name);
      assert NamesEqual(b[i].name, name);
    }
    if KnownColumn(b, name) {
      var i :| 0 <= i < |b| && NamesEqual(b[i].name, name);
      assert NamesEqual(a[i].name, name);
    }
  }

  lemma {:induction false} KinValidate(a: seq<Column>, b: seq<Column>, n: nat)
    requires Kin(a, b) && n <= |a|
    ensures ValidateColumns(a, n) == ValidateColumns(b, n)
  {
    if n > 0 {
      KinValidate(a, b, n - 1);
      KinKnown(a[..n - 1], b[..n - 1], a[n - 1].name);
    }
  }

  lemma {:induction false} ValidPrefix(columns: seq<Column>, indexes: seq<IndexSpec>, n: nat, m: nat)
    requires n <= m <= |indexes|
    requires ValidateIndexes(columns, indexes, m) == Ok(())
    ensures ValidateIndexes(columns, indexes, n) == Ok(())
    decreases m
  {
    if n < m { ValidPrefix(columns, indexes, n, m - 1); }
  }

  // Two of the first n indexes have the same name.
  predicate Clash(t: TableDef, n: nat)
    requires n <= |t.indexes|
  {
    exists i, j :: 0 <= i < j < n && NamesEqual(t.indexes[i].name, t.indexes[j].name)
  }

  lemma TakenAgain(t: TableDef, n: nat)
    requires n < |t.indexes|
    ensures Clash(t, n + 1) <==> Clash(t, n) || NameTaken(SpecOf(t).indexes, n)
  {
    var again := SpecOf(t).indexes;
    if k :| 0 <= k < n && NamesEqual(t.indexes[k].name, t.indexes[n].name) {
      assert again[k].name.Some? && NamesEqual(again[k].name.value, again[n].name.value);
    }
    if NameTaken(again, n) {
      var k :| 0 <= k < n && again[k].name.Some? && NamesEqual(again[k].name.value, again[n].name.value);
      assert NamesEqual(t.indexes[k].name, t.indexes[n].name);
    }
  }

  lemma {:induction false} SamePrimaryCount(a: seq<IndexSpec>, b: seq<IndexSpec>, n: nat)
    requires n <= |a| == |b|
    requires forall i :: 0 <= i < n ==> a[i].primary == b[i].primary
    ensures PrimaryCount(a, n) == PrimaryCount(b, n)
  {
    if n > 0 { SamePrimaryCount(a, b, n - 1); }
  }

  // The shape a built table shares with the specification it came from.
  lemma BuiltShape(spec: TableSpec, t: TableDef)
    requires InitTable(spec) == Ok(t)
    ensures Kin(spec.columns, t.columns) && |t.indexes| == |spec.indexes|
    ensures forall i :: 0 <= i < |t.indexes| ==> InitIndex(spec.indexes[i]) == Ok(t.indexes[i])
    ensures ValidateIndexes(spec.columns, spec.indexes, |spec.indexes|) == Ok(())
  {
    var first := InitColumns(spec.columns, |spec.columns|).value;
    forall i | 0 <= i < |first| ensures InitColumn(spec.columns[i]) == Ok(first[i]) {}
  }

  // Rebuilding validates the same indexes, now all named.
  lemma {:induction false} RevalidatePrefix(spec: TableSpec, t: TableDef, n: nat)
    requires InitTable(spec) == Ok(t)
    requires n <= |spec.indexes| == |t.indexes|
    ensures ValidateIndexes(t.columns, SpecOf(t).indexes, n) == if Clash(t, n) then Err(DuplicateObject) else Ok(())
  {
    if n > 0 {
      RevalidatePrefix(spec, t, n - 1);
      BuiltShape(spec, t);
      ValidPrefix(spec.columns, spec.indexes, n, |spec.indexes|);
      SamePrimaryCount(spec.indexes, SpecOf(t).indexes, n);
      TakenAgain(t, n - 1);
      var names := SpecOf(t).indexes[n - 1].columns;
      forall j | 0 <= j < |names| ensures KnownColumn(t.columns, names[j]) {
        assert KnownColumn(spec.columns, names[j]);
        KinKnown(spec.columns, t.columns, names[j]);
      }
    }
  }

  // Each column of a built table is already in its initialized form, or is the
  // one kind of column initialization refuses.
  lemma ReinitColumn(spec: TableSpec, t: TableDef, i: nat)
    requires InitTable(spec) == Ok(t)
    requires i < |t.columns|
    ensures if t.columns[i].nullable || t.columns[i].default != Some(Null)
            then InitColumn(t.columns[i]) == Ok(t.columns[i])
            else InitColumn(t.columns[i]) == Err(TypeMismatch)
  {
    var first := InitColumns(spec.columns, |spec.columns|).value;
    assert InitColumn(spec.columns[i]) == Ok(first[i]);
    assert t.columns[i] == KeyColumns(first, spec.indexes)[i];
  }

  // Marking the key columns a second time changes nothing.
  lemma RekeyColumns(spec: TableSpec, t: TableDef)
    requires InitTable(spec) == Ok(t)
    ensures KeyColumns(t.columns, SpecOf(t).indexes) == t.columns
  {
    var first := InitColumns(spec.columns, |spec.columns|).value;
    var again := SpecOf(t).indexes;
    forall i | 0 <= i < |t.columns|
      ensures KeyColumns(t.columns, again)[i] == t.columns[i]
    {
      assert InitColumn(spec.columns[i]) == Ok(first[i]);
      if Keyed(t.columns[i], again) {
        var k :| 0 <= k < |again| && again[k].primary && Names(again[k].columns, t.columns[i].name);
        assert InitIndex(spec.indexes[k]) == Ok(t.indexes[k]);
        assert Keyed(first[i], spec.indexes);
      }
    }
  }

  /** A built table can be rebuilt from itself exactly when it is Rebuildable, and
      the rebuilt table is then the same table. Otherwise the rebuild fails: with
      DuplicateObject when two index names clash (an unnamed index takes its
      name from its first column, unchecked against the others), with
      TypeMismatch when a primary index made a DEFAULT NULL column NOT NULL. */
  lemma RebuildExactly(t: TableDef)
    requires Built(t)
    ensures Rebuildable(t) <==> InitTable(SpecOf(t)) == Ok(t)
    ensures !DistinctIndexNames(t) ==> InitTable(SpecOf(t)) == Err(DuplicateObject)
    ensures DistinctIndexNames(t) && !NoNullDefaultOnKey(t) ==> InitTable(SpecOf(t)) == Err(TypeMismatch)
  {
    var spec :| InitTable(spec) == Ok(t);
    var again := SpecOf(t);
    BuiltShape(spec, t);
    RevalidatePrefix(spec, t, |spec.indexes|);
    KinValidate(spec.columns, t.columns, |t.columns|);
    assert ValidateColumns(again.columns, |again.columns|) == Ok(());
    if DistinctIndexNames(t) {
      forall i | 0 <= i < |t.columns|
        ensures if t.columns[i].nullable || t.columns[i].default != Some(Null)
                then InitColumn(t.columns[i]) == Ok(t.columns[i])
                else InitColumn(t.columns[i]) == Err(TypeMismatch)
      {
        ReinitColumn(spec, t, i);
      }
      if NoNullDefaultOnKey(t) {
        assert InitColumns(t.columns, |t.columns|).Ok?;
        assert InitColumns(t.columns, |t.columns|).value == t.columns;
        forall i | 0 <= i < |t.indexes| ensures InitIndex(again.indexes[i]) == Ok(t.indexes[i]) {
          assert InitIndex(spec.indexes[i]) == Ok(t.indexes[i]);
        }
        assert InitIndexes(again.indexes, |again.indexes|).Ok?;
        assert InitIndexes(again.indexes, |again.indexes|).value == t.indexes;
        RekeyColumns(spec, t);
      } else {
        var i :| 0 <= i < |t.columns| && !t.columns[i].nullable && t.columns[i].default == Some(Null);
        assert InitColumn(t.columns[i]) == Err(TypeMismatch);
      }
    }
  }

  // Both failures happen: two unnamed indexes on one column, and a primary index
  // over a column whose default is NULL.
  lemma ClashingIndexTable()
    ensures exists t :: Built(t) && !DistinctIndexNames(t)
  {
    var a := Column([97], IntegerType, true, None, false, false);
    var onA := IndexSpec(None, [[97]], false);
    var clash := TableSpec([116], [a], [onA, onA]);
    var t := TableDef([116], [a], [IndexDef([97], [[97]], false), IndexDef([97], [[97]], false)]);
    assert KnownColumn([a], [97]) by { assert NamesEqual([a][0].name, [97]); }
    assert ValidateColumns([a], 0) == Ok(()) && ValidateColumns([a], 1) == Ok(());
    assert PrimaryCount([onA, onA], 0) == PrimaryCount([onA, onA], 1) == 0;
    assert ColumnsKnown([a], onA.columns);
    assert ValidateIndexes([a], [onA, onA], 0) == Ok(());
    assert ValidateIndexes([a], [onA, onA], 1) == Ok(());
    assert ValidateIndexes([a], [onA, onA], 2) == Ok(());
    assert InitColumns([a], 1).Ok? && InitColumns([a], 1).value == [a];
    assert InitIndexes([onA, onA], 2).Ok? && InitIndexes([onA, onA], 2).value == t.indexes;
    assert KeyColumns([a], [onA, onA]) == [a];
    assert InitTable(clash) == Ok(t);
    assert NamesEqual(t.indexes[0].name, t.indexes[1].name);
    assert Built(t) && !DistinctIndexNames(t);
  }

  lemma NullDefaultKeyTable()
    ensures exists t :: Built(t) && DistinctIndexNames(t) && !NoNullDefaultOnKey(t)
  {
    var a := Column([97], IntegerType, true, None, false, false);
    var b := a.(default := Some(Null));
    var key := IndexSpec(None, [[97]], true);
    var onNull := TableSpec([116], [b], [key]);
    var u := TableDef([116], [b.(primaryKey := true, nullable := false)], [IndexDef(PRIMARY_INDEX_NAME, [[97]], true)]);
    assert KnownColumn([b], [97]) by { assert NamesEqual([b][0].name, [97]); }
    assert ValidateColumns([b], 0) == Ok(()) && ValidateColumns([b], 1) == Ok(());
    assert PrimaryCount([key], 0) == 0;
    assert ValidateIndexes([b], [key], 0) == Ok(());
    assert ValidateIndexes([b], [key], 1) == Ok(());
    assert InitColumns([b], 1).Ok? && InitColumns([b], 1).value == [b];
    assert InitIndexes([key], 1).Ok? && InitIndexes([key], 1).value == u.indexes;
    assert Keyed(b, [key]) by { assert NamesEqual(key.columns[0], b.name); assert Names([key][0].columns, b.name); }
    assert KeyColumns([b], [key]) == u.columns;
    assert InitTable(onNull) == Ok(u);
    assert !u.columns[0].nullable && u.columns[0].default == Some(Null);
    assert Built(u) && DistinctIndexNames(u) && !NoNullDefaultOnKey(u);
  }
}
