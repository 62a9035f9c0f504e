/** The byte codec of the snapshot payload: little-endian integers, length-prefixed
    bytes, counted lists and tagged values. A reader consumes a prefix of its input and
    returns the rest, as the cursor does. */
module Codec {
  import opened Values

  // ---- Integers -------------------------------------------------------------

  function LittleEndian(v: nat, n: nat): (r: Bytes)
    ensures |r| == n
  {
    if n == 0 then [] else [v % 0x100] + LittleEndian(v / 0x100, n - 1)
  }

  function FromLittleEndian(bytes: Bytes): nat {
    if bytes == [] then 0 else bytes[0] + 0x100 * FromLittleEndian(bytes[1..])
  }

  function Pow256(n: nat): (r: nat)
    ensures r > 0
  {
    if n == 0 then 1 else 0x100 * Pow256(n - 1)
  }

  lemma MachineWords()
    ensures Pow256(4) == 0x1_0000_0000 && Pow256(8) == 0x1_0000_0000_0000_0000
  {
    assert Pow256(2) == 0x1_0000;
    assert Pow256(6) == 0x1_0000_0000_0000;
  }

  lemma {:induction false} LittleEndianInverse(v: nat, n: nat)
    requires v < Pow256(n)
    ensures FromLittleEndian(LittleEndian(v, n)) == v
  {
    if n > 0 {
      LittleEndianInverse(v / 0x100, n - 1);
      assert LittleEndian(v, n)[1..] == LittleEndian(v / 0x100, n - 1);
    }
  }

  lemma {:induction false} FromLittleEndianBound(bytes: Bytes)
    ensures FromLittleEndian(bytes) < Pow256(|bytes|)
  {
    if bytes != [] { FromLittleEndianBound(bytes[1..]); }
  }

  // Every n-byte string is the encoding of its number.
  lemma {:induction false} FromLittleEndianInjective(a: Bytes, b: Bytes)
    requires |a| == |b| && FromLittleEndian(a) == FromLittleEndian(b)
    ensures a == b
  {
    if a != [] {
      assert a == [a[0]] + a[1..] && b == [b[0]] + b[1..];
      FromLittleEndianInjective(a[1..], b[1..]);
    }
  }

  // ---- Readers --------------------------------------------------------------

  function Take(n: nat, bytes: Bytes): Result<(Bytes, Bytes)> {
    if n > |bytes| then Err(TruncatedPayload) else Ok((bytes[..n], bytes[n..]))
  }

  function ReadByte(bytes: Bytes): Result<(Byte, Bytes)> {
    if bytes == [] then Err(TruncatedPayload) else Ok((bytes[0], bytes[1..]))
  }

  function ReadBool(bytes: Bytes): Result<(bool, Bytes)> {
    var r :- ReadByte(bytes);
    if r.0 == 0 then Ok((false, r.1))
    else if r.0 == 1 then Ok((true, r.1))
    else Err(InvalidBooleanEncoding)
  }

  function ReadU32(bytes: Bytes): Result<(U32, Bytes)> {
    var r :- Take(4, bytes);
    FromLittleEndianBound(r.0);
    MachineWords();
    Ok((FromLittleEndian(r.0), r.1))
  }

  function ReadU64(bytes: Bytes): Result<(U64, Bytes)> {
    var r :- Take(8, bytes);
    FromLittleEndianBound(r.0);
    MachineWords();
    Ok((FromLittleEndian(r.0), r.1))
  }

  function ReadPrefixed(bytes: Bytes): Result<(Bytes, Bytes)> {
    var n :- ReadU32(bytes);
    Take(n.0, n.1)
  }

  function EncodeBool(b: bool): Bytes { if b then [1] else [0] }

  function EncodeU32(v: U32): Bytes { LittleEndian(v, 4) }

  function EncodeU64(v: U64): Bytes { LittleEndian(v, 8) }

  function EncodeCount(n: nat): Result<Bytes> {
    if n > 0xFFFF_FFFF then Err(ValueTooLarge) else Ok(EncodeU32(n))
  }

  function EncodePrefixed(data: Bytes): Result<Bytes> {
    var n :- EncodeCount(|data|);
    Ok(n + data)
  }

  lemma ByteReads(b: Byte, tail: Bytes)
    ensures ReadByte([b] + tail) == Ok((b, tail))
  {}

  lemma BoolReads(b: bool, tail: Bytes)
    ensures ReadBool(EncodeBool(b) + tail) == Ok((b, tail))
  {
    ByteReads(if b then 1 else 0, tail);
  }

  lemma U32Reads(v: U32, tail: Bytes)
    ensures ReadU32(EncodeU32(v) + tail) == Ok((v, tail))
  {
    MachineWords();
    LittleEndianInverse(v, 4);
    var bytes := EncodeU32(v) + tail;
    assert bytes[..4] == EncodeU32(v) && bytes[4..] == tail;
  }

  lemma U64Reads(v: U64, tail: Bytes)
    ensures ReadU64(EncodeU64(v) + tail) == Ok((v, tail))
  {
    MachineWords();
    LittleEndianInverse(v, 8);
    var bytes := EncodeU64(v) + tail;
    assert bytes[..8] == EncodeU64(v) && bytes[8..] == tail;
  }

  lemma CountReads(n: nat, tail: Bytes)
    requires EncodeCount(n).Ok?
    ensures ReadU32(EncodeCount(n).value + tail) == Ok((n, tail))
  {
    U32Reads(n, tail);
  }

  lemma PrefixedReads(data: Bytes, tail: Bytes)
    requires EncodePrefixed(data).Ok?
    ensures ReadPrefixed(EncodePrefixed(data).value + tail) == Ok((data, tail))
  {
    var n := EncodeCount(|data|).value;
    assert n + data + tail == n + (data + tail);
    CountReads(|data|, data + tail);
    assert (data + tail)[..|data|] == data && (data + tail)[|data|..] == tail;
  }

  // ---- Lists ----------------------------------------------------------------

  function EncodeAll<T>(encode: T -> Result<Bytes>, xs: seq<T>): Result<Bytes> {
    if xs == [] then Ok([])
    else
      var first :- encode(xs[0]);
      var rest :- EncodeAll(encode, xs[1..]);
      Ok(first + rest)
  }

  function ReadAll<T>(read: Bytes -> Result<(T, Bytes)>, n: nat, bytes: Bytes): Result<(seq<T>, Bytes)>
    decreases n
  {
    if n == 0 then Ok(([], bytes))
    else
      var first :- read(bytes);
      var rest :- ReadAll(read, n - 1, first.1);
      Ok(([first.0] + rest.0, rest.1))
  }

  function EncodeList<T>(encode: T -> Result<Bytes>, xs: seq<T>): Result<Bytes> {
    var n :- EncodeCount(|xs|);
    var all :- EncodeAll(encode, xs);
    Ok(n + all)
  }

  function ReadList<T>(read: Bytes -> Result<(T, Bytes)>, bytes: Bytes): Result<(seq<T>, Bytes)> {
    var n :- ReadU32(bytes);
    ReadAll(read, n.0, n.1)
  }

  /** Reading an encoding gives the value back and leaves exactly what follows it. */
  ghost predicate ReadsBack<T(!new)>(code: Result<Bytes>, read: Bytes -> Result<(T, Bytes)>, x: T) {
    code.Ok? ==> forall tail: Bytes :: read(code.value + tail) == Ok((x, tail))
  }

  // The same, with the value read being a function of the value written.
  lemma {:induction false} AllReadBack<S(!new), T(!new)>(
    encode: S -> Result<Bytes>, read: Bytes -> Result<(T, Bytes)>, xs: seq<S>, ys: seq<T>, tail: Bytes)
    requires |xs| == |ys| && EncodeAll(encode, xs).Ok?
    requires forall i :: 0 <= i < |xs| ==> ReadsBack(encode(xs[i]), read, ys[i])
    ensures ReadAll(read, |xs|, EncodeAll(encode, xs).value + tail) == Ok((ys, tail))
    decreases |xs|
  {
    if xs == [] {
      assert [] + tail == tail;
    } else {
      var first := encode(xs[0]).value;
      var rest := EncodeAll(encode, xs[1..]).value;
      assert ReadsBack(encode(xs[0]), read, ys[0]);
      assert first + rest + tail == first + (rest + tail);
      AllReadBack(encode, read, xs[1..], ys[1..], tail);
      assert [ys[0]] + ys[1..] == ys;
    }
  }

  lemma ListReadsBack<S(!new), T(!new)>(
    encode: S -> Result<Bytes>, read: Bytes -> Result<(T, Bytes)>, xs: seq<S>, ys: seq<T>, tail: Bytes)
    requires |xs| == |ys| && EncodeList(encode, xs).Ok?
    requires forall i :: 0 <= i < |xs| ==> ReadsBack(encode(xs[i]), read, ys[i])
    ensures ReadList(read, EncodeList(encode, xs).value + tail) == Ok((ys, tail))
  {
    var n := EncodeCount(|xs|).value;
    var all := EncodeAll(encode, xs).value;
    assert n + all + tail == n + (all + tail);
    CountReads(|xs|, all + tail);
    AllReadBack(encode, read, xs, ys, tail);
  }

  // ---- Values ---------------------------------------------------------------

  const FLOAT32_TAG: Byte := 1

  function TwosComplement(i: I64): U64 {
    if i >= 0 then i else i + 0x1_0000_0000_0000_0000
  }

  function FromTwosComplement(v: U64): I64 {
    if v < 0x8000_0000_0000_0000 then v else v - 0x1_0000_0000_0000_0000
  }

  function EncodeValue(v: Value): Result<Bytes> {
    match v
    case Null => Ok([0])
    case Integer(i) => Ok([1] + EncodeU64(TwosComplement(i)))
    case Float(bits) => Ok([2] + EncodeU64(bits))
    case Boolean(b) => Ok([3] + EncodeBool(b))
    case Text(t) => (var data :- EncodePrefixed(t); Ok([4] + data))
    case Blob(b) => (var data :- EncodePrefixed(b); Ok([5] + data))
    case Vector(es) => (var data :- EncodeList(EncodeElement, es); Ok([6] + ([FLOAT32_TAG] + data)))
  }

  function EncodeElement(e: U32): Result<Bytes> { Ok(EncodeU32(e)) }

  function ReadElementType(bytes: Bytes): Result<((), Bytes)> {
    var r :- ReadByte(bytes);
    if r.0 == FLOAT32_TAG then Ok(((), r.1)) else Err(InvalidVectorElementType)
  }

  function ReadVector(bytes: Bytes): Result<(Value, Bytes)> {
    var t :- ReadElementType(bytes);
    var es :- ReadList(ReadU32, t.1);
    if es.0 == [] then Err(InvalidVectorDimension) else Ok((Vector(es.0), es.1))
  }

  function ReadValue(bytes: Bytes): Result<(Value, Bytes)> {
    var tag :- ReadByte(bytes);
    match tag.0
    case 0 => Ok((Null, tag.1))
    case 1 => (var r :- ReadU64(tag.1); Ok((Integer(FromTwosComplement(r.0)), r.1)))
    case 2 => (var r :- ReadU64(tag.1); Ok((Float(r.0), r.1)))
    case 3 => (var r :- ReadBool(tag.1); Ok((Boolean(r.0), r.1)))
    case 4 => (var r :- ReadPrefixed(tag.1); Ok((Text(r.0), r.1)))
    case 5 => (var r :- ReadPrefixed(tag.1); Ok((Blob(r.0), r.1)))
    case 6 => ReadVector(tag.1)
    case _ => Err(InvalidValueTag)
  }

  lemma VectorReads(es: seq<U32>, tail: Bytes)
    requires es != [] && EncodeList(EncodeElement, es).Ok?
    ensures ReadVector([FLOAT32_TAG] + EncodeList(EncodeElement, es).value + tail) == Ok((Vector(es), tail))
  {
    var data := EncodeList(EncodeElement, es).value;
    assert [FLOAT32_TAG] + data + tail == [FLOAT32_TAG] + (data + tail);
    ByteReads(FLOAT32_TAG, data + tail);
    forall i | 0 <= i < |es| ensures ReadsBack(EncodeElement(es[i]), ReadU32, es[i]) {
      forall t: Bytes ensures ReadU32(EncodeElement(es[i]).value + t) == Ok((es[i], t)) { U32Reads(es[i], t); }
    }
    ListReadsBack(EncodeElement, ReadU32, es, es, tail);
  }

  // Every value but the empty vector, which no column accepts, reads back.
  lemma ValueReads(v: Value, tail: Bytes)
    requires EncodeValue(v).Ok? && v != Vector([])
    ensures ReadValue(EncodeValue(v).value + tail) == Ok((v, tail))
  {
    hide ReadVector, ReadPrefixed, ReadU64, ReadBool, EncodePrefixed, EncodeU64, EncodeBool, EncodeList;
    var code := EncodeValue(v).value;
    var body := code[1..] + tail;
    assert code + tail == [code[0]] + body;
    ByteReads(code[0], body);
    match v
    case Null => assert body == tail;
    case Integer(i) =>
      assert body == EncodeU64(TwosComplement(i)) + tail;
      U64Reads(TwosComplement(i), tail);
    case Float(bits) =>
      assert body == EncodeU64(bits) + tail;
      U64Reads(bits, tail);
    case Boolean(b) =>
      assert body == EncodeBool(b) + tail;
      BoolReads(b, tail);
    case Text(t) =>
      assert body == EncodePrefixed(t).value + tail;
      PrefixedReads(t, tail);
    case Blob(b) =>
      assert body == EncodePrefixed(b).value + tail;
      PrefixedReads(b, tail);
    case Vector(es) =>
      assert body == [FLOAT32_TAG] + EncodeList(EncodeElement, es).value + tail;
      VectorReads(es, tail);
  }

  // The empty vector can be written and is refused when it is read.
  lemma EmptyVectorRefused(tail: Bytes)
    ensures EncodeValue(Vector([])).Ok?
    ensures ReadValue(EncodeValue(Vector([])).value + tail) == Err(InvalidVectorDimension)
  {
    var count := EncodeCount(0).value;
    var code := EncodeValue(Vector([])).value;
    assert code + tail == [6] + ([FLOAT32_TAG] + (count + tail)) by {
      assert EncodeAll(EncodeElement, []) == Ok([]) && count + [] == count;
    }
    hide EncodeValue, EncodeU32, ReadU32;
    ByteReads(6, [FLOAT32_TAG] + (count + tail));
    ByteReads(FLOAT32_TAG, count + tail);
    CountReads(0, tail);
  }

  lemma ValueReadsBack(v: Value)
    requires v != Vector([])
    ensures ReadsBack(EncodeValue(v), ReadValue, v)
  {
    if EncodeValue(v).Ok? {
      forall tail: Bytes ensures ReadValue(EncodeValue(v).value + tail) == Ok((v, tail)) { ValueReads(v, tail); }
    }
  }
}
