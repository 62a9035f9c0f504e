/** The snapshot file byte by byte, stated apart from its encoder: every integer with its
    lowest byte first, every tag as listed, every list behind its count, every field in its
    place. The encoder writes exactly this, and the readers of the payload's elements accept
    nothing else. */
module FileLayout {
  import opened Values
  import opened Arithmetic
  import opened Catalog
  import opened Rows
  import opened Codec
  import opened Checksum
  import opened SnapshotFile
  import Header = SnapshotHeader

  // ---- The layout -----------------------------------------------------------

  // Byte i of a number counts 256^i.
  function Word(v: nat, n: nat): (r: Bytes)
    ensures |r| == n
  {
    seq(n, i requires 0 <= i < n => v / Pow256(i) % 0x100)
  }

  function Concat(parts: seq<Bytes>): Bytes {
    if parts == [] then [] else parts[0] + Concat(parts[1..])
  }

  function Flag(b: bool): Bytes { [if b then 1 else 0] }

  function Counted(parts: seq<Bytes>): Bytes { Word(|parts|, 4) + Concat(parts) }

  function Prefixed(data: Bytes): Bytes { Word(|data|, 4) + data }

  function ValueTag(v: Value): Byte {
    match v
    case Null => 0
    case Integer(_) => 1
    case Float(_) => 2
    case Boolean(_) => 3
    case Text(_) => 4
    case Blob(_) => 5
    case Vector(_) => 6
  }

  // An integer is written modulo 2^64, a vector behind the tag of its element type.
  function ValueBody(v: Value): Bytes {
    match v
    case Null => []
    case Integer(i) => Word(i % WORD, 8)
    case Float(bits) => Word(bits, 8)
    case Boolean(b) => Flag(b)
    case Text(t) => Prefixed(t)
    case Blob(b) => Prefixed(b)
    case Vector(es) => [1] + Counted(Words(es))
  }

  function Words(es: seq<U32>): (r: seq<Bytes>)
    ensures |r| == |es|
  {
    seq(|es|, i requires 0 <= i < |es| => Word(es[i], 4))
  }

  function ValueBytes(v: Value): Bytes { [ValueTag(v)] + ValueBody(v) }

  function TypeBytes(t: ColumnType): Bytes {
    match t
    case IntegerType => [1]
    case FloatType => [2]
    case BooleanType => [3]
    case TextType => [4]
    case BlobType => [5]
    case VectorType(d) => [6, 1] + Word(d, 4)
  }

  function DefaultBytes(d: Option<Value>): Bytes {
    Flag(d.Some?) + if d.Some? then ValueBytes(d.value) else []
  }

  function ColumnBytes(c: Column): Bytes {
    Prefixed(c.name) + TypeBytes(c.ctype) + Flag(c.nullable) + DefaultBytes(c.default)
    + Flag(c.primaryKey) + Flag(c.autoIncrement)
  }

  function IndexBytes(x: IndexDef): Bytes {
    Flag(x.primary) + Prefixed(x.name) + Counted(Parts(x.columns, Prefixed))
  }

  function RowBytes(r: Row): Bytes {
    Word(r.id % WORD, 8) + Counted(Parts(r.values, ValueBytes))
  }

  function TableBytes(s: Store): Bytes {
    Prefixed(s.table.name) + Counted(Parts(s.table.columns, ColumnBytes)) + Counted(Parts(s.table.indexes, IndexBytes))
    + Word(s.nextId % WORD, 8) + Counted(Parts(s.rows, RowBytes))
  }

  function NamedBytes(v: Named): Bytes { Prefixed(v.name) + Prefixed(v.body) }

  function PayloadBytes(db: Database): Bytes {
    Counted(Parts(db.tables, TableBytes)) + Counted(Parts(db.views, NamedBytes))
    + Counted(Parts(db.procedures, NamedBytes))
  }

  // The ten letters SHOVELERDB, version 2, the payload's length and its checksum.
  function FileBytes(db: Database): Bytes {
    var payload := PayloadBytes(db);
    [83, 72, 79, 86, 69, 76, 69, 82, 68, 66] + [2, 0, 0, 0]
    + Word(|payload| % WORD, 8) + Word(Crc32(payload), 4) + payload
  }

  function Parts<T>(xs: seq<T>, bytes: T -> Bytes): (r: seq<Bytes>)
    ensures |r| == |xs|
  {
    seq(|xs|, i requires 0 <= i < |xs| => bytes(xs[i]))
  }

  // ---- The encoder writes it ------------------------------------------------

  lemma {:induction false} WordIs(v: nat, n: nat)
    ensures LittleEndian(v, n) == Word(v, n)
  {
    if n > 0 {
      WordIs(v / 0x100, n - 1);
      var word := Word(v, n);
      forall i | 0 < i < n ensures Word(v / 0x100, n - 1)[i - 1] == word[i] { DividesTwice(v, 0x100, Pow256(i - 1)); }
      assert word[0] == v % 0x100;
      assert word == [word[0]] + Word(v / 0x100, n - 1);
    }
  }

  ghost predicate Writes<T(!new)>(encode: T -> Result<Bytes>, bytes: T -> Bytes, x: T) {
    encode(x).Ok? ==> encode(x).value == bytes(x)
  }

  lemma {:induction false} AllWritten<T(!new)>(encode: T -> Result<Bytes>, bytes: T -> Bytes, xs: seq<T>)
    requires EncodeAll(encode, xs).Ok? && forall i :: 0 <= i < |xs| ==> Writes(encode, bytes, xs[i])
    ensures EncodeAll(encode, xs).value == Concat(Parts(xs, bytes))
    decreases |xs|
  {
    if xs != [] {
      assert Writes(encode, bytes, xs[0]);
      AllWritten(encode, bytes, xs[1..]);
      assert Parts(xs, bytes)[1..] == Parts(xs[1..], bytes);
    }
  }

  lemma ListWritten<T(!new)>(encode: T -> Result<Bytes>, bytes: T -> Bytes, xs: seq<T>)
    requires forall i :: 0 <= i < |xs| ==> Writes(encode, bytes, xs[i])
    ensures EncodeList(encode, xs).Ok? ==> EncodeList(encode, xs).value == Counted(Parts(xs, bytes))
  {
    if EncodeList(encode, xs).Ok? {
      AllWritten(encode, bytes, xs);
      WordIs(|xs|, 4);
    }
  }

  lemma PrefixedWritten(data: Bytes)
    ensures Writes(EncodePrefixed, Prefixed, data)
  {
    WordIs(|data|, 4);
  }

  lemma ElementsWritten(es: seq<U32>)
    ensures EncodeList(EncodeElement, es).Ok? ==> EncodeList(EncodeElement, es).value == Counted(Words(es))
  {
    var bytes := (e: U32) => Word(e, 4);
    forall i | 0 <= i < |es| ensures Writes(EncodeElement, bytes, es[i]) { WordIs(es[i], 4); }
    ListWritten(EncodeElement, bytes, es);
    assert Parts(es, bytes) == Words(es);
  }

  /** The bytes of a value: the tag of its kind, then its body. */
  lemma ValueWritten(v: Value)
    ensures Writes(EncodeValue, ValueBytes, v)
  {
    hide Word, LittleEndian;
    match v
    case Integer(i) => WordIs(TwosComplement(i), 8);
    case Float(bits) => WordIs(bits, 8);
    case Text(t) => PrefixedWritten(t);
    case Blob(b) => PrefixedWritten(b);
    case Vector(es) => ElementsWritten(es);
    case _ =>
  }

  lemma ColumnWritten(c: Column)
    ensures Writes(EncodeColumn, ColumnBytes, c)
  {
    hide EncodeType, EncodeDefault, EncodePrefixed, TypeBytes, DefaultBytes, Prefixed;
    PrefixedWritten(c.name);
    TypeWritten(c.ctype);
    DefaultWritten(c.default);
  }

  lemma TypeWritten(t: ColumnType)
    ensures EncodeType(t).Ok? ==> EncodeType(t).value == TypeBytes(t)
  {
    if t.VectorType? && EncodeType(t).Ok? {
      WordIs(t.dimension, 4);
      hide Word;
      assert [6] + ([FLOAT32_TAG] + Word(t.dimension, 4)) == [6, 1] + Word(t.dimension, 4);
    }
  }

  lemma DefaultWritten(d: Option<Value>)
    ensures EncodeDefault(d).Ok? ==> EncodeDefault(d).value == DefaultBytes(d)
  {
    if d.Some? { ValueWritten(d.value); }
    hide EncodeValue, ValueBytes;
  }

  lemma IndexWritten(x: IndexDef)
    ensures Writes(EncodeIndex, IndexBytes, x)
  {
    hide EncodePrefixed, Prefixed, EncodeList, Counted;
    forall i | 0 <= i < |x.columns| ensures Writes(EncodePrefixed, Prefixed, x.columns[i]) {
      PrefixedWritten(x.columns[i]);
    }
    ListWritten(EncodePrefixed, Prefixed, x.columns);
    PrefixedWritten(x.name);
  }

  lemma RowWritten(r: Row)
    ensures Writes(EncodeRow, RowBytes, r)
  {
    hide EncodeValue, ValueBytes, EncodeList, Counted, Word;
    forall i | 0 <= i < |r.values| ensures Writes(EncodeValue, ValueBytes, r.values[i]) { ValueWritten(r.values[i]); }
    ListWritten(EncodeValue, ValueBytes, r.values);
    WordIs(r.id % WORD, 8);
  }

  lemma TableWritten(s: Store)
    ensures Writes(EncodeTable, TableBytes, s)
  {
    hide EncodeColumn, ColumnBytes, EncodeIndex, IndexBytes, EncodeRow, RowBytes, EncodeList, Counted, Word,
      EncodePrefixed, Prefixed;
    PrefixedWritten(s.table.name);
    forall i | 0 <= i < |s.table.columns| ensures Writes(EncodeColumn, ColumnBytes, s.table.columns[i]) {
      ColumnWritten(s.table.columns[i]);
    }
    ListWritten(EncodeColumn, ColumnBytes, s.table.columns);
    forall i | 0 <= i < |s.table.indexes| ensures Writes(EncodeIndex, IndexBytes, s.table.indexes[i]) {
      IndexWritten(s.table.indexes[i]);
    }
    ListWritten(EncodeIndex, IndexBytes, s.table.indexes);
    forall i | 0 <= i < |s.rows| ensures Writes(EncodeRow, RowBytes, s.rows[i]) { RowWritten(s.rows[i]); }
    ListWritten(EncodeRow, RowBytes, s.rows);
    WordIs(s.nextId % WORD, 8);
  }

  lemma NamedWritten(v: Named)
    ensures Writes(EncodeNamed, NamedBytes, v)
  {
    hide EncodePrefixed, Prefixed;
    PrefixedWritten(v.name);
    PrefixedWritten(v.body);
  }

  lemma PayloadWritten(db: Database)
    ensures EncodePayload(db).Ok? ==> EncodePayload(db).value == PayloadBytes(db)
  {
    hide EncodeTable, TableBytes, EncodeNamed, NamedBytes, EncodeList, Counted;
    forall i | 0 <= i < |db.tables| ensures Writes(EncodeTable, TableBytes, db.tables[i]) {
      TableWritten(db.tables[i]);
    }
    ListWritten(EncodeTable, TableBytes, db.tables);
    forall i | 0 <= i < |db.views| ensures Writes(EncodeNamed, NamedBytes, db.views[i]) { NamedWritten(db.views[i]); }
    ListWritten(EncodeNamed, NamedBytes, db.views);
    forall i | 0 <= i < |db.procedures| ensures Writes(EncodeNamed, NamedBytes, db.procedures[i]) {
      NamedWritten(db.procedures[i]);
    }
    ListWritten(EncodeNamed, NamedBytes, db.procedures);
  }

  /** Every file that is written is, byte for byte, the layout of its database. */
  lemma FileWritten(db: Database)
    ensures Header.Encode(db).Ok? ==> Header.Encode(db).value == FileBytes(db)
  {
    hide EncodePayload, PayloadBytes, Crc32, Word, LittleEndian;
    PayloadWritten(db);
    VersionWord();
    if Header.Encode(db).Ok? {
      WordIs(|PayloadBytes(db)| % WORD, 8);
      WordIs(Crc32(PayloadBytes(db)), 4);
    }
  }

  lemma VersionWord()
    ensures EncodeU32(Header.CURRENT_VERSION) == [2, 0, 0, 0]
  {
    assert LittleEndian(0, 0) == [] && LittleEndian(0, 1) == [0] && LittleEndian(0, 2) == [0, 0];
    assert LittleEndian(0, 3) == [0, 0, 0];
  }

  // ---- The readers accept nothing else --------------------------------------

  /** Whatever the reader makes of its input, the input starts with the encoding of that,
      and the reader leaves what follows it. */
  ghost predicate ReadsOnly<T(!new)>(read: Bytes -> Result<(T, Bytes)>, encode: T -> Result<Bytes>, bytes: Bytes) {
    read(bytes).Ok? ==>
      && encode(read(bytes).value.0).Ok?
      && bytes == encode(read(bytes).value.0).value + read(bytes).value.1
  }

  lemma {:induction false} WordBack(bytes: Bytes)
    ensures LittleEndian(FromLittleEndian(bytes), |bytes|) == bytes
  {
    if bytes != [] {
      WordBack(bytes[1..]);
      assert bytes == [bytes[0]] + bytes[1..];
    }
  }

  lemma U32Only(bytes: Bytes)
    ensures ReadsOnly(ReadU32, EncodeElement, bytes)
  {
    if |bytes| >= 4 {
      WordBack(bytes[..4]);
      assert bytes == bytes[..4] + bytes[4..];
    }
  }

  lemma U64Only(bytes: Bytes)
    ensures ReadU64(bytes).Ok? ==> bytes == EncodeU64(ReadU64(bytes).value.0) + ReadU64(bytes).value.1
  {
    if |bytes| >= 8 {
      WordBack(bytes[..8]);
      assert bytes == bytes[..8] + bytes[8..];
    }
  }

  lemma BoolOnly(bytes: Bytes)
    ensures ReadBool(bytes).Ok? ==> bytes == EncodeBool(ReadBool(bytes).value.0) + ReadBool(bytes).value.1
    ensures bytes != [] && bytes[0] > 1 ==> ReadBool(bytes) == Err(InvalidBooleanEncoding)
  {
    if bytes != [] { assert bytes == [bytes[0]] + bytes[1..]; }
  }

  lemma PrefixedOnly(bytes: Bytes)
    ensures ReadsOnly(ReadPrefixed, EncodePrefixed, bytes)
  {
    hide LittleEndian, FromLittleEndian;
    U32Only(bytes);
    if ReadPrefixed(bytes).Ok? {
      var n := ReadU32(bytes).value;
      var data, rest := n.1[..n.0], n.1[n.0..];
      assert n.1 == data + rest && |data| == n.0;
      assert EncodeU32(n.0) + (data + rest) == EncodeU32(n.0) + data + rest;
    }
  }

  lemma {:induction false} AllOnly<T(!new)>(
      read: Bytes -> Result<(T, Bytes)>, encode: T -> Result<Bytes>, n: nat, bytes: Bytes)
    requires ReadAll(read, n, bytes).Ok? && forall b: Bytes :: ReadsOnly(read, encode, b)
    ensures var (xs, rest) := ReadAll(read, n, bytes).value;
            |xs| == n && EncodeAll(encode, xs).Ok? && bytes == EncodeAll(encode, xs).value + rest
    decreases n
  {
    var (xs, rest) := ReadAll(read, n, bytes).value;
    if n == 0 {
      assert [] + bytes == bytes;
    } else {
      assert ReadsOnly(read, encode, bytes);
      var first := read(bytes).value;
      AllOnly(read, encode, n - 1, first.1);
      assert xs[1..] == ReadAll(read, n - 1, first.1).value.0;
      var code, more := encode(first.0).value, EncodeAll(encode, xs[1..]).value;
      assert code + (more + rest) == code + more + rest;
    }
  }

  lemma ListOnly<T(!new)>(read: Bytes -> Result<(T, Bytes)>, encode: T -> Result<Bytes>, bytes: Bytes)
    requires forall b: Bytes :: ReadsOnly(read, encode, b)
    ensures ReadList(read, bytes).Ok? ==>
              var (xs, rest) := ReadList(read, bytes).value;
              EncodeList(encode, xs).Ok? && bytes == EncodeList(encode, xs).value + rest
  {
    hide ReadsOnly, EncodeAll, ReadAll, LittleEndian, FromLittleEndian;
    if ReadList(read, bytes).Ok? {
      CountOnly(bytes);
      var n := ReadU32(bytes).value;
      AllOnly(read, encode, n.0, n.1);
      var (xs, rest) := ReadList(read, bytes).value;
      var more := EncodeAll(encode, xs).value;
      assert EncodeU32(n.0) + (more + rest) == EncodeU32(n.0) + more + rest;
    }
  }

  lemma CountOnly(bytes: Bytes)
    requires ReadU32(bytes).Ok?
    ensures bytes == EncodeU32(ReadU32(bytes).value.0) + ReadU32(bytes).value.1
  {
    U32Only(bytes);
  }

  lemma VectorOnly(bytes: Bytes)
    ensures ReadVector(bytes).Ok? ==>
              var (v, rest) := ReadVector(bytes).value;
              && v.Vector? && EncodeList(EncodeElement, v.elements).Ok?
              && bytes == [FLOAT32_TAG] + EncodeList(EncodeElement, v.elements).value + rest
    ensures bytes != [] && bytes[0] != 1 ==> ReadVector(bytes) == Err(InvalidVectorElementType)
  {
    hide ReadList, EncodeList;
    if ReadVector(bytes).Ok? {
      forall b: Bytes ensures ReadsOnly(ReadU32, EncodeElement, b) { U32Only(b); }
      var tail := bytes[1..];
      ListOnly(ReadU32, EncodeElement, tail);
      var (es, rest) := ReadList(ReadU32, tail).value;
      assert bytes == [FLOAT32_TAG] + tail;
      assert [FLOAT32_TAG] + (EncodeList(EncodeElement, es).value + rest) ==
             [FLOAT32_TAG] + EncodeList(EncodeElement, es).value + rest;
    }
  }

  /** The reader of values accepts exactly the encodings of values: with ValueReads, the
      input holds a value if and only if it starts with that value's tag and body. */
  lemma ValueOnly(bytes: Bytes)
    ensures ReadsOnly(ReadValue, EncodeValue, bytes)
    ensures bytes != [] && bytes[0] > 6 ==> ReadValue(bytes) == Err(InvalidValueTag)
  {
    hide ReadU64, ReadBool, ReadPrefixed, ReadVector, EncodeU64, EncodeBool, EncodePrefixed, EncodeList;
    if bytes != [] {
      var tail := bytes[1..];
      assert bytes == [bytes[0]] + tail;
      U64Only(tail);
      BoolOnly(tail);
      PrefixedOnly(tail);
      VectorOnly(tail);
      if ReadValue(bytes).Ok? { ValueParts(bytes); }
    }
  }

  lemma ValueParts(bytes: Bytes)
    requires ReadValue(bytes).Ok?
    requires var tail := bytes[1..];
             && (ReadU64(tail).Ok? ==> tail == EncodeU64(ReadU64(tail).value.0) + ReadU64(tail).value.1)
             && (ReadBool(tail).Ok? ==> tail == EncodeBool(ReadBool(tail).value.0) + ReadBool(tail).value.1)
             && ReadsOnly(ReadPrefixed, EncodePrefixed, tail)
             && (ReadVector(tail).Ok? ==>
                   var (v, rest) := ReadVector(tail).value;
                   && v.Vector? && EncodeList(EncodeElement, v.elements).Ok?
                   && tail == [FLOAT32_TAG] + EncodeList(EncodeElement, v.elements).value + rest)
    ensures ReadsOnly(ReadValue, EncodeValue, bytes)
  {
    hide ReadU64, ReadBool, ReadPrefixed, ReadVector, EncodeU64, EncodeBool, EncodePrefixed, EncodeList;
    var tag, tail := bytes[0], bytes[1..];
    var (v, rest) := ReadValue(bytes).value;
    assert bytes == [tag] + tail;
    match tag
    case 0 => assert bytes == [0] + rest;
    case 1 => FromBack(ReadU64(tail).value.0); assert bytes == [1] + EncodeU64(ReadU64(tail).value.0) + rest;
    case 2 => assert bytes == [2] + EncodeU64(ReadU64(tail).value.0) + rest;
    case 3 => assert bytes == [3] + EncodeBool(ReadBool(tail).value.0) + rest;
    case 4 => assert bytes == [4] + EncodePrefixed(ReadPrefixed(tail).value.0).value + rest;
    case 5 => assert bytes == [5] + EncodePrefixed(ReadPrefixed(tail).value.0).value + rest;
    case _ =>
      var data := EncodeList(EncodeElement, v.elements).value;
      assert bytes == [6] + ([FLOAT32_TAG] + data) + rest;
  }

  lemma FromBack(v: U64)
    ensures TwosComplement(FromTwosComplement(v)) == v
  {}

  lemma TypeOnly(bytes: Bytes)
    ensures ReadsOnly(ReadType, EncodeType, bytes)
    ensures bytes != [] && !(1 <= bytes[0] <= 6) ==> ReadType(bytes) == Err(InvalidColumnType)
  {
    hide LittleEndian, FromLittleEndian;
    if ReadType(bytes).Ok? {
      var tail := bytes[1..];
      assert bytes == [bytes[0]] + tail;
      if bytes[0] == 6 {
        var n := tail[1..];
        CountOnly(n);
        assert tail == [FLOAT32_TAG] + n;
        var code, rest := EncodeU32(ReadU32(n).value.0), ReadU32(n).value.1;
        assert bytes == [6] + ([FLOAT32_TAG] + code) + rest;
      }
    }
  }

  lemma DefaultOnly(bytes: Bytes)
    ensures ReadsOnly(ReadDefault, EncodeDefault, bytes)
  {
    hide ReadBool, EncodeBool, ReadValue, EncodeValue;
    BoolOnly(bytes);
    if ReadDefault(bytes).Ok? && ReadBool(bytes).value.0 {
      var tail := ReadBool(bytes).value.1;
      ValueOnly(tail);
      var (v, rest) := ReadValue(tail).value;
      assert EncodeBool(true) + (EncodeValue(v).value + rest) == EncodeBool(true) + EncodeValue(v).value + rest;
    }
  }

  /** The reader of columns accepts exactly the encodings of columns. */
  lemma ColumnOnly(bytes: Bytes)
    ensures ReadsOnly(ReadColumn, EncodeColumn, bytes)
  {
    hide ReadBool, EncodeBool, ReadPrefixed, EncodePrefixed, ReadType, EncodeType, ReadDefault, EncodeDefault;
    if ReadColumn(bytes).Ok? {
      PrefixedOnly(bytes);
      var name := ReadPrefixed(bytes).value;
      TypeOnly(name.1);
      var ctype := ReadType(name.1).value;
      BoolOnly(ctype.1);
      var nullable := ReadBool(ctype.1).value;
      DefaultOnly(nullable.1);
      var default := ReadDefault(nullable.1).value;
      BoolOnly(default.1);
      var key := ReadBool(default.1).value;
      BoolOnly(key.1);
      var auto := ReadBool(key.1).value;
      Nested(EncodePrefixed(name.0).value, EncodeType(ctype.0).value, EncodeBool(nullable.0),
             EncodeDefault(default.0).value, EncodeBool(key.0), EncodeBool(auto.0), auto.1);
    }
  }

  lemma Nested(a: Bytes, b: Bytes, c: Bytes, d: Bytes, e: Bytes, f: Bytes, rest: Bytes)
    ensures a + (b + (c + (d + (e + (f + rest))))) == a + (b + (c + (d + (e + f)))) + rest
  {}

  // An index specification with a name, as it is written.
  function EncodeSpec(x: IndexSpec): Result<Bytes> {
    if x.name.None? then Err(UnknownObject) else EncodeIndex(IndexDef(x.name.value, x.columns, x.primary))
  }

  /** The reader of indexes accepts exactly the encodings of indexes. */
  lemma IndexOnly(bytes: Bytes)
    ensures ReadsOnly(ReadIndex, EncodeSpec, bytes)
  {
    hide ReadBool, EncodeBool, ReadPrefixed, EncodePrefixed, ReadList, EncodeList, ReadsOnly;
    if ReadIndex(bytes).Ok? {
      BoolOnly(bytes);
      var primary := ReadBool(bytes).value;
      PrefixedParts(primary.1);
      var name := ReadPrefixed(primary.1).value;
      forall b: Bytes ensures ReadsOnly(ReadPrefixed, EncodePrefixed, b) { PrefixedOnly(b); }
      ListOnly(ReadPrefixed, EncodePrefixed, name.1);
      var columns := ReadList(ReadPrefixed, name.1).value;
      var a, b, c := EncodeBool(primary.0), EncodePrefixed(name.0).value, EncodeList(EncodePrefixed, columns.0).value;
      assert a + (b + (c + columns.1)) == a + (b + c) + columns.1;
    }
    ThatIsAll(ReadIndex, EncodeSpec, bytes);
  }

  lemma PrefixedParts(bytes: Bytes)
    requires ReadPrefixed(bytes).Ok?
    ensures EncodePrefixed(ReadPrefixed(bytes).value.0).Ok?
    ensures bytes == EncodePrefixed(ReadPrefixed(bytes).value.0).value + ReadPrefixed(bytes).value.1
  {
    PrefixedOnly(bytes);
  }

  lemma ThatIsAll<T(!new)>(read: Bytes -> Result<(T, Bytes)>, encode: T -> Result<Bytes>, bytes: Bytes)
    requires read(bytes).Ok? ==>
               && encode(read(bytes).value.0).Ok?
               && bytes == encode(read(bytes).value.0).value + read(bytes).value.1
    ensures ReadsOnly(read, encode, bytes)
  {}

  /** The reader of rows accepts exactly the encodings of rows. */
  lemma RowOnly(bytes: Bytes)
    ensures ReadsOnly(ReadRow, EncodeRow, bytes)
  {
    hide ReadU64, EncodeU64, ReadList, EncodeList, ReadsOnly, ReadValue, EncodeValue;
    if ReadRow(bytes).Ok? {
      U64Only(bytes);
      var id := ReadU64(bytes).value;
      forall b: Bytes ensures ReadsOnly(ReadValue, EncodeValue, b) { ValueOnly(b); }
      ListOnly(ReadValue, EncodeValue, id.1);
      var values := ReadList(ReadValue, id.1).value;
      var a, b := EncodeU64(id.0), EncodeList(EncodeValue, values.0).value;
      assert EncodeId(id.0) == a;
      assert a + (b + values.1) == a + b + values.1;
    }
    ThatIsAll(ReadRow, EncodeRow, bytes);
  }
}
