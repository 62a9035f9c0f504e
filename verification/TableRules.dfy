/** What the row check and CREATE TABLE accept, what they make of it and with which error
    they refuse, said of the values, the columns and the indexes themselves. */
module TableRules {
  import opened Values
  import opened Catalog

  // ---- Names ----------------------------------------------------------------

  /** The same letter, in whatever case, or the same byte. */
  predicate SameLetter(a: Byte, b: Byte) {
    a == b || (65 <= a <= 90 && b == a + 32) || (65 <= b <= 90 && a == b + 32)
  }

  /** Names are equal exactly when they agree letter by letter, ASCII case aside. */
  lemma NamesEqualExactly(a: Bytes, b: Bytes)
    ensures NamesEqual(a, b) <==> |a| == |b| && forall i :: 0 <= i < |a| ==> SameLetter(a[i], b[i])
  {
    if NamesEqual(a, b) {
      forall i | 0 <= i < |a| ensures SameLetter(a[i], b[i]) { assert Folded(a)[i] == Folded(b)[i]; }
    }
    if |a| == |b| && forall i :: 0 <= i < |a| ==> SameLetter(a[i], b[i]) { assert Folded(a) == Folded(b); }
  }

  // ---- The row check --------------------------------------------------------

  /** The value is of exactly this type, a vector having exactly its dimension. */
  predicate OfType(t: ColumnType, v: Value) {
    || (t.IntegerType? && v.Integer?) || (t.FloatType? && v.Float?) || (t.BooleanType? && v.Boolean?)
    || (t.TextType? && v.Text?) || (t.BlobType? && v.Blob?)
    || (t.VectorType? && v.Vector? && |v.elements| == t.dimension)
  }

  predicate Suits(c: Column, v: Value) {
    (v.Null? && c.nullable) || OfType(c.ctype, v)
  }

  // The error for a value that does not suit its column.
  function Misfit(t: ColumnType, v: Value): Error {
    if t.VectorType? && v.Vector? then VectorDimensionMismatch else TypeMismatch
  }

  lemma CheckValueExactly(c: Column, v: Value)
    ensures CheckValue(c, v) == if Suits(c, v) then Ok(()) else Err(Misfit(c.ctype, v))
  {}

  /** Position i is the first at which a value does not suit its column. */
  ghost predicate FirstMisfit(columns: seq<Column>, values: seq<Value>, i: nat)
    requires |columns| == |values|
  {
    i < |values| && !Suits(columns[i], values[i]) && forall j :: 0 <= j < i ==> Suits(columns[j], values[j])
  }

  lemma {:induction false} CheckValuesExactly(columns: seq<Column>, values: seq<Value>)
    requires |columns| == |values|
    ensures CheckValues(columns, values).Ok? <==> forall i :: 0 <= i < |values| ==> Suits(columns[i], values[i])
    ensures CheckValues(columns, values).Err? ==>
              exists i: nat :: FirstMisfit(columns, values, i)
                          && CheckValues(columns, values).error == Misfit(columns[i].ctype, values[i])
  {
    if columns != [] {
      CheckValueExactly(columns[0], values[0]);
      var rest, restValues := columns[1..], values[1..];
      CheckValuesExactly(rest, restValues);
      hide Suits, Misfit;
      if !Suits(columns[0], values[0]) {
        assert FirstMisfit(columns, values, 0);
      } else if CheckValues(rest, restValues).Err? {
        var i: nat :| FirstMisfit(rest, restValues, i)
                      && CheckValues(rest, restValues).error == Misfit(rest[i].ctype, restValues[i]);
        assert rest[i] == columns[i + 1] && restValues[i] == values[i + 1];
        FirstLater(columns, values, i);
      } else {
        forall i | 0 <= i < |values| ensures Suits(columns[i], values[i]) {
          if i > 0 { assert rest[i - 1] == columns[i] && restValues[i - 1] == values[i]; }
        }
      }
    }
  }

  lemma FirstLater(columns: seq<Column>, values: seq<Value>, i: nat)
    requires |columns| == |values| && columns != [] && Suits(columns[0], values[0])
    requires FirstMisfit(columns[1..], values[1..], i)
    ensures FirstMisfit(columns, values, i + 1)
  {
    hide Suits;
    forall j | 0 <= j < i + 1 ensures Suits(columns[j], values[j]) {
      if j > 0 { assert columns[1..][j - 1] == columns[j] && values[1..][j - 1] == values[j]; }
    }
  }

  /** A row is accepted if and only if it has one value for each column and each is NULL
      under a nullable column or of exactly its column's type. Otherwise the count is
      reported first, and then the first value that does not suit. */
  lemma CheckRowExactly(table: TableDef, values: seq<Value>)
    ensures CheckRow(table, values).Ok? <==>
            |values| == |table.columns| && forall i :: 0 <= i < |values| ==> Suits(table.columns[i], values[i])
    ensures |values| != |table.columns| ==> CheckRow(table, values) == Err(ColumnCountMismatch)
    ensures |values| == |table.columns| && CheckRow(table, values).Err? ==>
              exists i: nat :: FirstMisfit(table.columns, values, i)
                          && CheckRow(table, values).error == Misfit(table.columns[i].ctype, values[i])
  {
    if |values| == |table.columns| { CheckValuesExactly(table.columns, values); }
  }

  // ---- The columns of a specification ---------------------------------------

  predicate TypeSound(t: ColumnType) { t.VectorType? ==> t.dimension > 0 }

  // The column's name is that of an earlier one.
  predicate Repeated(columns: seq<Column>, i: nat)
    requires i < |columns|
  {
    exists k :: 0 <= k < i && NamesEqual(columns[k].name, columns[i].name)
  }

  predicate ColumnSound(columns: seq<Column>, i: nat)
    requires i < |columns|
  {
    && TypeSound(columns[i].ctype) && (columns[i].autoIncrement ==> columns[i].ctype.IntegerType?)
    && !Repeated(columns, i)
  }

  function ColumnError(columns: seq<Column>, i: nat): Error
    requires i < |columns|
  {
    if !TypeSound(columns[i].ctype) then InvalidVectorDimension
    else if columns[i].autoIncrement && !columns[i].ctype.IntegerType? then TypeMismatch
    else DuplicateColumn
  }

  lemma RepeatedExactly(columns: seq<Column>, i: nat)
    requires i < |columns|
    ensures KnownColumn(columns[..i], columns[i].name) <==> Repeated(columns, i)
  {
    if k :| 0 <= k < i && NamesEqual(columns[k].name, columns[i].name) { assert columns[..i][k] == columns[k]; }
    if KnownColumn(columns[..i], columns[i].name) {
      var k :| 0 <= k < |columns[..i]| && NamesEqual(columns[..i][k].name, columns[i].name);
      assert NamesEqual(columns[k].name, columns[i].name);
    }
  }

  ghost predicate FirstBadColumn(columns: seq<Column>, i: nat) {
    i < |columns| && !ColumnSound(columns, i) && forall j: nat :: j < i ==> ColumnSound(columns, j)
  }

  lemma {:induction false} ColumnsExactly(columns: seq<Column>, n: nat)
    requires n <= |columns|
    ensures ValidateColumns(columns, n).Ok? <==> forall i: nat :: i < n ==> ColumnSound(columns, i)
    ensures ValidateColumns(columns, n).Err? ==>
              exists i: nat :: FirstBadColumn(columns, i) && i < n
                               && ValidateColumns(columns, n).error == ColumnError(columns, i)
  {
    if n > 0 {
      ColumnsExactly(columns, n - 1);
      RepeatedExactly(columns, n - 1);
      if ValidateColumns(columns, n - 1).Ok? && ValidateColumns(columns, n).Err? {
        assert FirstBadColumn(columns, n - 1);
      }
    }
  }

  // ---- Its indexes ----------------------------------------------------------

  // An earlier index is primary too, or was given the same name.
  predicate IndexClashes(indexes: seq<IndexSpec>, i: nat)
    requires i < |indexes|
  {
    exists k :: 0 <= k < i && (SecondPrimary(indexes[k], indexes[i]) || SameGivenName(indexes[k], indexes[i]))
  }

  predicate SecondPrimary(a: IndexSpec, b: IndexSpec) { a.primary && b.primary }

  predicate SameGivenName(a: IndexSpec, b: IndexSpec) {
    a.name.Some? && b.name.Some? && NamesEqual(a.name.value, b.name.value)
  }

  predicate NamesColumns(columns: seq<Column>, x: IndexSpec) {
    forall j :: 0 <= j < |x.columns| ==> Among(columns, x.columns[j])
  }

  predicate Among(columns: seq<Column>, name: Bytes) {
    exists i :: 0 <= i < |columns| && NamesEqual(columns[i].name, name)
  }

  predicate IndexSound(columns: seq<Column>, indexes: seq<IndexSpec>, i: nat)
    requires i < |indexes|
  {
    !IndexClashes(indexes, i) && NamesColumns(columns, indexes[i])
  }

  ghost predicate FirstBadIndex(columns: seq<Column>, indexes: seq<IndexSpec>, i: nat) {
    i < |indexes| && !IndexSound(columns, indexes, i) && forall j: nat :: j < i ==> IndexSound(columns, indexes, j)
  }

  // No two of the first n indexes are primary.
  ghost predicate OnePrimary(indexes: seq<IndexSpec>, n: nat)
    requires n <= |indexes|
  {
    forall i, j :: 0 <= i < j < n ==> !SecondPrimary(indexes[i], indexes[j])
  }

  lemma {:induction false} PrimaryCounts(indexes: seq<IndexSpec>, n: nat)
    requires n <= |indexes|
    ensures PrimaryCount(indexes, n) <= 1 <==> OnePrimary(indexes, n)
    ensures PrimaryCount(indexes, n) == 0 <==> forall i :: 0 <= i < n ==> !indexes[i].primary
  {
    if n > 0 {
      PrimaryCounts(indexes, n - 1);
      if PrimaryCount(indexes, n - 1) > 0 {
        var i :| 0 <= i < n - 1 && indexes[i].primary;
        assert indexes[n - 1].primary ==> SecondPrimary(indexes[i], indexes[n - 1]);
      }
    }
  }

  lemma ClashesExactly(indexes: seq<IndexSpec>, i: nat)
    requires i < |indexes| && OnePrimary(indexes, i)
    ensures PrimaryCount(indexes, i + 1) > 1 || NameTaken(indexes, i) <==> IndexClashes(indexes, i)
  {
    PrimaryCounts(indexes, i + 1);
    PrimaryCounts(indexes, i);
    if NameTaken(indexes, i) {
      var k :| 0 <= k < i && indexes[k].name.Some? && NamesEqual(indexes[k].name.value, indexes[i].name.value);
      assert SameGivenName(indexes[k], indexes[i]);
    }
    if !OnePrimary(indexes, i + 1) {
      var k, m :| 0 <= k < m < i + 1 && SecondPrimary(indexes[k], indexes[m]);
      assert m == i;
    }
    if IndexClashes(indexes, i) && !NameTaken(indexes, i) {
      var k :| 0 <= k < i && (SecondPrimary(indexes[k], indexes[i]) || SameGivenName(indexes[k], indexes[i]));
      assert SecondPrimary(indexes[k], indexes[i]);
    }
  }

  lemma SoundHasOnePrimary(columns: seq<Column>, indexes: seq<IndexSpec>, n: nat)
    requires n <= |indexes| && forall i: nat :: i < n ==> IndexSound(columns, indexes, i)
    ensures OnePrimary(indexes, n)
  {
    forall i, j | 0 <= i < j < n ensures !SecondPrimary(indexes[i], indexes[j]) {
      assert IndexSound(columns, indexes, j);
    }
  }

  lemma KnownExactly(columns: seq<Column>, x: IndexSpec)
    ensures ColumnsKnown(columns, x.columns) <==> NamesColumns(columns, x)
  {
    hide NamesEqual;
    forall name: Bytes ensures KnownColumn(columns, name) == Among(columns, name) {}
  }

  lemma {:induction false} IndexesExactly(columns: seq<Column>, indexes: seq<IndexSpec>, n: nat)
    requires n <= |indexes|
    ensures ValidateIndexes(columns, indexes, n).Ok? <==> forall i: nat :: i < n ==> IndexSound(columns, indexes, i)
    ensures ValidateIndexes(columns, indexes, n).Err? ==>
              exists i: nat :: FirstBadIndex(columns, indexes, i) && i < n
                          && ValidateIndexes(columns, indexes, n).error ==
                             if IndexClashes(indexes, i) then DuplicateObject else UnknownObject
  {
    if n > 0 {
      IndexesExactly(columns, indexes, n - 1);
      if ValidateIndexes(columns, indexes, n - 1).Ok? {
        SoundHasOnePrimary(columns, indexes, n - 1);
        ClashesExactly(indexes, n - 1);
        KnownExactly(columns, indexes[n - 1]);
        hide IndexClashes, NameTaken, PrimaryCount, NamesColumns, ColumnsKnown, OnePrimary;
        if ValidateIndexes(columns, indexes, n).Err? { assert FirstBadIndex(columns, indexes, n - 1); }
      }
    }
  }

  // ---- Its defaults ---------------------------------------------------------

  /** The default is NULL for a column declared nullable and neither a key nor
      auto-increment, or of exactly the column's type. */
  predicate DefaultSound(c: Column) {
    match c.default
    case None => true
    case Some(v) => (v.Null? && c.nullable && !c.primaryKey && !c.autoIncrement) || OfType(c.ctype, v)
  }

  lemma InitColumnExactly(c: Column)
    requires TypeSound(c.ctype)
    ensures InitColumn(c).Ok? <==> DefaultSound(c)
    ensures InitColumn(c).Ok? ==>
              InitColumn(c).value == c.(nullable := c.nullable && !c.primaryKey && !c.autoIncrement)
    ensures InitColumn(c).Err? ==> c.default.Some? && InitColumn(c).error == Misfit(c.ctype, c.default.value)
  {}

  lemma {:induction false} InitColumnsExactly(columns: seq<Column>, n: nat)
    requires n <= |columns| && forall i :: 0 <= i < n ==> TypeSound(columns[i].ctype)
    ensures InitColumns(columns, n).Ok? <==> forall i :: 0 <= i < n ==> DefaultSound(columns[i])
    ensures InitColumns(columns, n).Err? ==>
              exists i: nat :: FirstBadDefault(columns, i) && i < n && columns[i].default.Some?
                               && InitColumns(columns, n).error == Misfit(columns[i].ctype, columns[i].default.value)
  {
    hide DefaultSound, Misfit, InitColumn, InitColumns, TypeSound;
    if n == 0 {
      NoColumns(columns);
    } else {
      InitColumnsExactly(columns, n - 1);
      InitColumnExactly(columns[n - 1]);
      InitColumnsStep(columns, n);
      if InitColumns(columns, n - 1).Ok? && InitColumns(columns, n).Err? { assert FirstBadDefault(columns, n - 1); }
    }
  }

  lemma NoColumns(columns: seq<Column>)
    ensures InitColumns(columns, 0).Ok?
  {}

  lemma InitColumnsStep(columns: seq<Column>, n: nat)
    requires 0 < n <= |columns|
    ensures InitColumns(columns, n - 1).Err? ==>
              InitColumns(columns, n).Err? && InitColumns(columns, n).error == InitColumns(columns, n - 1).error
    ensures InitColumns(columns, n - 1).Ok? ==>
              && InitColumns(columns, n).Ok? == InitColumn(columns[n - 1]).Ok?
              && (InitColumns(columns, n).Err? ==> InitColumns(columns, n).error == InitColumn(columns[n - 1]).error)
  {
    hide InitColumn;
  }

  ghost predicate FirstBadDefault(columns: seq<Column>, i: nat) {
    i < |columns| && !DefaultSound(columns[i]) && forall j :: 0 <= j < i ==> DefaultSound(columns[j])
  }

  lemma {:induction false} InitIndexesExactly(indexes: seq<IndexSpec>, n: nat)
    requires n <= |indexes|
    ensures InitIndexes(indexes, n).Ok? <==> forall i :: 0 <= i < n ==> indexes[i].columns != []
  {
    if n > 0 { InitIndexesExactly(indexes, n - 1); }
  }

  // ---- CREATE TABLE ---------------------------------------------------------

  ghost predicate ColumnsSound(spec: TableSpec) {
    forall i: nat :: i < |spec.columns| ==> ColumnSound(spec.columns, i)
  }

  ghost predicate IndexesSound(spec: TableSpec) {
    forall i: nat :: i < |spec.indexes| ==> IndexSound(spec.columns, spec.indexes, i)
  }

  ghost predicate DefaultsSound(spec: TableSpec) {
    forall i :: 0 <= i < |spec.columns| ==> DefaultSound(spec.columns[i])
  }

  ghost predicate NoEmptyIndex(spec: TableSpec) {
    forall i :: 0 <= i < |spec.indexes| ==> spec.indexes[i].columns != []
  }

  /** A primary index of the specification names the column. */
  ghost predicate InPrimary(spec: TableSpec, i: nat)
    requires i < |spec.columns|
  {
    exists k, j :: 0 <= k < |spec.indexes| && 0 <= j < |spec.indexes[k].columns|
                   && spec.indexes[k].primary && NamesEqual(spec.indexes[k].columns[j], spec.columns[i].name)
  }

  /** A table can be created if and only if every column, every index and every default is
      sound and no index is empty. */
  lemma CreatedExactly(spec: TableSpec)
    ensures InitTable(spec).Ok? <==>
            ColumnsSound(spec) && IndexesSound(spec) && DefaultsSound(spec) && NoEmptyIndex(spec)
  {
    ColumnsExactly(spec.columns, |spec.columns|);
    IndexesExactly(spec.columns, spec.indexes, |spec.indexes|);
    if ColumnsSound(spec) {
      forall i | 0 <= i < |spec.columns| ensures TypeSound(spec.columns[i].ctype) { SoundType(spec.columns, i); }
      InitColumnsExactly(spec.columns, |spec.columns|);
    }
    InitIndexesExactly(spec.indexes, |spec.indexes|);
    hide ColumnSound, IndexSound, DefaultSound, ValidateColumns, ValidateIndexes, InitColumns, InitIndexes, KeyColumns;
  }

  /** The error of a table that cannot be created: that of the first unsound column, or else
      of the first unsound index, or else of the first unsound default, or else of an
      empty index. */
  lemma RefusedExactly(spec: TableSpec)
    requires InitTable(spec).Err?
    ensures !ColumnsSound(spec) ==>
              exists i: nat :: FirstBadColumn(spec.columns, i) && InitTable(spec).error == ColumnError(spec.columns, i)
    ensures ColumnsSound(spec) && !IndexesSound(spec) ==>
              exists i: nat :: FirstBadIndex(spec.columns, spec.indexes, i)
                          && InitTable(spec).error ==
                             if IndexClashes(spec.indexes, i) then DuplicateObject else UnknownObject
    ensures ColumnsSound(spec) && IndexesSound(spec) && !DefaultsSound(spec) ==>
              exists i: nat :: FirstBadDefault(spec.columns, i) && spec.columns[i].default.Some?
                               && InitTable(spec).error == Misfit(spec.columns[i].ctype, spec.columns[i].default.value)
    ensures ColumnsSound(spec) && IndexesSound(spec) && DefaultsSound(spec) ==> InitTable(spec).error == UnknownObject
  {
    hide ColumnSound, IndexSound, DefaultSound, Misfit, ColumnError, IndexClashes, KeyColumns, FirstBadColumn,
      FirstBadIndex, FirstBadDefault, ValidateColumns, ValidateIndexes, InitColumns, InitIndexes;
    ColumnsExactly(spec.columns, |spec.columns|);
    IndexesExactly(spec.columns, spec.indexes, |spec.indexes|);
    if ColumnsSound(spec) {
      forall i | 0 <= i < |spec.columns| ensures TypeSound(spec.columns[i].ctype) { SoundType(spec.columns, i); }
      InitColumnsExactly(spec.columns, |spec.columns|);
    }
    if InitIndexes(spec.indexes, |spec.indexes|).Err? { EmptyIndexError(spec.indexes, |spec.indexes|); }
  }

  lemma SoundType(columns: seq<Column>, i: nat)
    requires i < |columns| && ColumnSound(columns, i)
    ensures TypeSound(columns[i].ctype)
  {}

  lemma {:induction false} EmptyIndexError(indexes: seq<IndexSpec>, n: nat)
    requires n <= |indexes| && InitIndexes(indexes, n).Err?
    ensures InitIndexes(indexes, n).error == UnknownObject
  {
    if n > 0 && InitIndexes(indexes, n - 1).Err? { EmptyIndexError(indexes, n - 1); }
  }

  /** What a created table is, column by column and index by index: everything as declared,
      except that a column is nullable only if it was declared so and is neither a key nor
      auto-increment nor named by a primary index, that a primary index makes its columns
      keys, and that an unnamed index takes the name PRIMARY or that of its first column. */
  lemma CreatedTable(spec: TableSpec, t: TableDef)
    requires InitTable(spec) == Ok(t)
    ensures t.name == spec.name && |t.columns| == |spec.columns| && |t.indexes| == |spec.indexes|
    ensures forall i: nat :: i < |t.columns| ==>
              var c, d := spec.columns[i], t.columns[i];
              && d.name == c.name && d.ctype == c.ctype && d.default == c.default && d.autoIncrement == c.autoIncrement
              && d.primaryKey == (c.primaryKey || InPrimary(spec, i))
              && d.nullable == (c.nullable && !c.primaryKey && !c.autoIncrement && !InPrimary(spec, i))
    ensures forall i :: 0 <= i < |t.indexes| ==>
              var x, y := spec.indexes[i], t.indexes[i];
              && y.columns == x.columns && y.primary == x.primary && x.columns != []
              && y.name == if x.name.Some? then x.name.value
                           else if x.primary then [80, 82, 73, 77, 65, 82, 89] else x.columns[0]
  {
    CreatedExactly(spec);
    var first := InitColumns(spec.columns, |spec.columns|).value;
    forall i: nat | i < |t.columns|
      ensures var c, d := spec.columns[i], t.columns[i];
              && d.name == c.name && d.ctype == c.ctype && d.default == c.default && d.autoIncrement == c.autoIncrement
              && d.primaryKey == (c.primaryKey || InPrimary(spec, i))
              && d.nullable == (c.nullable && !c.primaryKey && !c.autoIncrement && !InPrimary(spec, i))
    {
      ColumnMade(spec, t, first, i);
    }
  }

  lemma ColumnMade(spec: TableSpec, t: TableDef, first: seq<Column>, i: nat)
    requires InitTable(spec) == Ok(t) && InitColumns(spec.columns, |spec.columns|) == Ok(first) && i < |t.columns|
    ensures |t.columns| == |spec.columns| == |first|
    ensures var c, d := spec.columns[i], t.columns[i];
            && d.name == c.name && d.ctype == c.ctype && d.default == c.default && d.autoIncrement == c.autoIncrement
            && d.primaryKey == (c.primaryKey || InPrimary(spec, i))
            && d.nullable == (c.nullable && !c.primaryKey && !c.autoIncrement && !InPrimary(spec, i))
  {
    assert |t.columns| == |first| == |spec.columns|;
    assert InitColumn(spec.columns[i]) == Ok(first[i]);
    assert t.columns[i] == KeyColumns(first, spec.indexes)[i];
    KeyedExactly(spec, i, first[i].name);
  }

  lemma KeyedExactly(spec: TableSpec, i: nat, name: Bytes)
    requires i < |spec.columns| && name == spec.columns[i].name
    ensures InPrimary(spec, i) <==>
            exists k :: 0 <= k < |spec.indexes| && spec.indexes[k].primary && Names(spec.indexes[k].columns, name)
  {
    hide NamesEqual;
    if k :| 0 <= k < |spec.indexes| && spec.indexes[k].primary && Names(spec.indexes[k].columns, name) {
      var j :| 0 <= j < |spec.indexes[k].columns| && NamesEqual(spec.indexes[k].columns[j], name);
      assert InPrimary(spec, i);
    }
    if InPrimary(spec, i) {
      var k, j :| 0 <= k < |spec.indexes| && 0 <= j < |spec.indexes[k].columns|
                  && spec.indexes[k].primary && NamesEqual(spec.indexes[k].columns[j], spec.columns[i].name);
      assert Names(spec.indexes[k].columns, name);
    }
  }
}
