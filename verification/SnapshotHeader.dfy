/** The header around the payload and what it guards against: every file that was
    damaged inside one header field or inside four consecutive payload bytes, cut
    short or grown is refused, with the error of the field that gives it away. */
module SnapshotHeader {
  import opened Values
  import opened Rows
  import opened Codec
  import opened Checksum
  import opened SnapshotFile

  // The bytes of "SHOVELERDB".
  function Signature(): (r: Bytes)
    ensures |r| == 10
  {
    [83, 72, 79, 86, 69, 76, 69, 82, 68, 66]
  }

  const CURRENT_VERSION: U32 := 2
  const HEADER_SIZE: nat := 26

  function Header(payload: Bytes): (r: Bytes)
    ensures |r| == HEADER_SIZE
  {
    Signature() + EncodeU32(CURRENT_VERSION) + EncodeId(|payload|) + EncodeU32(Crc32(payload))
  }

  function Encode(db: Database): Result<Bytes> {
    var payload :- EncodePayload(db);
    Ok(Header(payload) + payload)
  }

  // The fields, for a file at least as long as its header.
  function VersionOf(file: Bytes): nat
    requires |file| >= HEADER_SIZE
  {
    FromLittleEndian(file[10..14])
  }

  function LengthOf(file: Bytes): nat
    requires |file| >= HEADER_SIZE
  {
    FromLittleEndian(file[14..22])
  }

  function ChecksumOf(file: Bytes): nat
    requires |file| >= HEADER_SIZE
  {
    FromLittleEndian(file[22..26])
  }

  // The checks on the header, in order; None when the payload may be read.
  function Refusal(file: Bytes): Option<Error> {
    if |file| < HEADER_SIZE then Some(InvalidHeader)
    else if file[..10] != Signature() then Some(InvalidHeader)
    else if VersionOf(file) != CURRENT_VERSION then Some(UnsupportedVersion)
    else if LengthOf(file) != |file| - HEADER_SIZE then Some(PayloadLengthMismatch)
    else if Crc32(file[26..]) != ChecksumOf(file) then Some(PayloadChecksumMismatch)
    else None
  }

  function Decode(file: Bytes): Result<Database> {
    match Refusal(file)
    case Some(e) => Err(e)
    case None =>
      var r :- ReadPayload(file[26..]);
      if r.1 != [] then Err(PayloadLengthMismatch) else Ok(r.0)
  }

  // ---- Round trip -----------------------------------------------------------

  lemma HeaderAccepted(payload: Bytes)
    requires |payload| < WORD
    ensures Refusal(Header(payload) + payload).None? && (Header(payload) + payload)[26..] == payload
  {
    HeaderNumbers(payload);
    hide Crc32, LittleEndian, FromLittleEndian, Signature, EncodeId, EncodeU32;
    HeaderFields(payload);
  }

  lemma HeaderFields(payload: Bytes)
    ensures var file := Header(payload) + payload;
            && file[..10] == Signature() && file[10..14] == EncodeU32(CURRENT_VERSION)
            && file[14..22] == EncodeId(|payload|) && file[22..26] == EncodeU32(Crc32(payload))
            && file[26..] == payload
  {
    hide Crc32, Signature;
    IdLength(|payload|);
    FiveParts(Signature(), EncodeU32(CURRENT_VERSION), EncodeId(|payload|), EncodeU32(Crc32(payload)), payload);
  }

  lemma FiveParts(a: Bytes, b: Bytes, c: Bytes, d: Bytes, e: Bytes)
    requires |a| == 10 && |b| == 4 && |c| == 8 && |d| == 4
    ensures var f := a + b + c + d + e;
            f[..10] == a && f[10..14] == b && f[14..22] == c && f[22..26] == d && f[26..] == e
  {}

  lemma HeaderNumbers(payload: Bytes)
    requires |payload| < WORD
    ensures FromLittleEndian(EncodeU32(CURRENT_VERSION)) == CURRENT_VERSION
    ensures FromLittleEndian(EncodeId(|payload|)) == |payload|
    ensures FromLittleEndian(EncodeU32(Crc32(payload))) == Crc32(payload)
  {
    hide Crc32, LittleEndian, FromLittleEndian, Pow256;
    MachineWords();
    LittleEndianInverse(CURRENT_VERSION, 4);
    LittleEndianInverse(|payload|, 8);
    LittleEndianInverse(Crc32(payload), 4);
  }

  /** Writing a database and reading the file gives the same database back, exactly
      when all its tables can be rebuilt. */
  lemma FileRoundTrip(db: Database)
    requires DatabaseOk(db) && Encode(db).Ok? && |EncodePayload(db).value| < WORD
    ensures AllRebuildable(db.tables) <==> Decode(Encode(db).value) == Ok(db)
    ensures !AllRebuildable(db.tables) ==> Decode(Encode(db).value).Err?
  {
    hide EncodePayload, ReadPayload, Refusal, Header, DatabaseOk, AllRebuildable;
    HeaderAccepted(EncodePayload(db).value);
    PayloadRoundTrip(db);
  }

  /** A payload with anything behind it is refused even under a header that fits it. */
  lemma PaddedIsRefused(db: Database, extra: Bytes)
    requires DatabaseOk(db) && EncodePayload(db).Ok? && AllRebuildable(db.tables) && extra != []
    requires |EncodePayload(db).value + extra| < WORD
    ensures var payload := EncodePayload(db).value + extra;
            Decode(Header(payload) + payload) == Err(PayloadLengthMismatch)
  {
    hide EncodePayload, ReadPayload, Refusal, Header, DatabaseOk, AllRebuildable;
    HeaderAccepted(EncodePayload(db).value + extra);
    PayloadReads(db, extra);
  }

  // ---- Damage ---------------------------------------------------------------

  // Two files agree outside the given range.
  predicate AgreeOutside(a: Bytes, b: Bytes, from: nat, to: nat)
    requires |a| == |b| && from <= to <= |a|
  {
    a[..from] == b[..from] && a[to..] == b[to..]
  }

  datatype Field = Magic | Version | Length | Sum | Payload(at: nat, len: nat)

  predicate Within(f: Field, size: nat) {
    f.Payload? ==> f.len <= 4 && HEADER_SIZE + f.at + f.len <= size
  }

  function Range(f: Field): (r: (nat, nat))
    ensures r.0 <= r.1
  {
    match f
    case Magic => (0, 10)
    case Version => (10, 14)
    case Length => (14, 22)
    case Sum => (22, 26)
    case Payload(at, len) => (HEADER_SIZE + at, HEADER_SIZE + at + len)
  }

  function DamageError(f: Field): Error {
    match f
    case Magic => InvalidHeader
    case Version => UnsupportedVersion
    case Length => PayloadLengthMismatch
    case Sum => PayloadChecksumMismatch
    case Payload(_, _) => PayloadChecksumMismatch
  }

  lemma Differ(a: Bytes, b: Bytes, from: nat, to: nat)
    requires |a| == |b| && from <= to <= |a| && AgreeOutside(a, b, from, to) && a != b
    ensures a[from..to] != b[from..to]
  {
    assert a == a[..from] + a[from..to] + a[to..];
    assert b == b[..from] + b[from..to] + b[to..];
  }

  lemma SameSlice(a: Bytes, b: Bytes, from: nat, to: nat, i: nat, j: nat)
    requires |a| == |b| && from <= to <= |a| && AgreeOutside(a, b, from, to)
    requires i <= j <= |a| && (j <= from || to <= i)
    ensures a[i..j] == b[i..j]
  {
    forall k | i <= k < j ensures a[k] == b[k] {
      if j <= from {
        assert a[k] == a[..from][k] && b[k] == b[..from][k];
      } else {
        assert a[k] == a[to..][k - to] && b[k] == b[to..][k - to];
      }
    }
  }

  lemma SameHeader(a: Bytes, b: Bytes, from: nat, to: nat, upTo: nat)
    requires |a| == |b| >= HEADER_SIZE && from <= to <= |a| && AgreeOutside(a, b, from, to) && upTo <= from
    ensures upTo >= 10 ==> a[..10] == b[..10]
    ensures upTo >= 14 ==> VersionOf(a) == VersionOf(b)
    ensures upTo >= 22 ==> LengthOf(a) == LengthOf(b)
    ensures upTo >= 26 ==> ChecksumOf(a) == ChecksumOf(b)
  {
    hide AgreeOutside, FromLittleEndian;
    if upTo >= 10 {
      SameSlice(a, b, from, to, 0, 10);
      assert a[0..10] == a[..10] && b[0..10] == b[..10];
    }
    if upTo >= 14 { SameSlice(a, b, from, to, 10, 14); }
    if upTo >= 22 { SameSlice(a, b, from, to, 14, 22); }
    if upTo >= 26 { SameSlice(a, b, from, to, 22, 26); }
  }

  lemma HeaderDamage(a: Bytes, b: Bytes, f: Field)
    requires |a| == |b| >= HEADER_SIZE && Refusal(a).None? && a != b && !f.Payload?
    requires AgreeOutside(a, b, Range(f).0, Range(f).1)
    ensures Refusal(b) == Some(DamageError(f))
  {
    var from, to := Range(f).0, Range(f).1;
    hide Crc32, AgreeOutside, FromLittleEndian, Signature;
    Differ(a, b, from, to);
    SameHeader(a, b, from, to, from);
    match f
    case Magic => assert a[0..10] == a[..10] && b[0..10] == b[..10];
    case Version => if VersionOf(a) == VersionOf(b) { FromLittleEndianInjective(a[10..14], b[10..14]); }
    case Length => if LengthOf(a) == LengthOf(b) { FromLittleEndianInjective(a[14..22], b[14..22]); }
    case Sum =>
      SameSlice(a, b, from, to, 26, |a|);
      assert a[26..|a|] == a[26..] && b[26..|a|] == b[26..];
      if ChecksumOf(a) == ChecksumOf(b) { FromLittleEndianInjective(a[22..26], b[22..26]); }
  }

  lemma PayloadDamage(a: Bytes, b: Bytes, at: nat, len: nat)
    requires |a| == |b| && HEADER_SIZE + at + len <= |a| && len <= 4 && Refusal(a).None? && a != b
    requires AgreeOutside(a, b, HEADER_SIZE + at, HEADER_SIZE + at + len)
    ensures Refusal(b) == Some(PayloadChecksumMismatch)
  {
    hide Crc32, FromLittleEndian, Signature;
    SameHeader(a, b, HEADER_SIZE + at, HEADER_SIZE + at + len, HEADER_SIZE);
    PayloadChanges(a, b, HEADER_SIZE + at, HEADER_SIZE + at + len);
  }

  lemma PayloadChanges(a: Bytes, b: Bytes, from: nat, to: nat)
    requires |a| == |b| && HEADER_SIZE <= from <= to <= |a| && to - from <= 4 && a != b
    requires AgreeOutside(a, b, from, to)
    ensures Crc32(a[26..]) != Crc32(b[26..])
  {
    hide Crc32;
    Differ(a, b, from, to);
    SameSlice(a, b, from, to, 26, from);
    assert a[26..] == a[26..from] + a[from..to] + a[to..];
    assert b[26..] == b[26..from] + b[from..to] + b[to..];
    BurstChangesChecksum(a[26..from], a[from..to], b[from..to], a[to..]);
  }

  /** A readable file that was damaged in one place, a header field or up to four
      consecutive payload bytes, is refused with the error of that place. */
  lemma DamageIsRefused(a: Bytes, b: Bytes, f: Field)
    requires Decode(a).Ok? && |a| == |b| && a != b && |a| >= HEADER_SIZE
    requires Within(f, |a|) && AgreeOutside(a, b, Range(f).0, Range(f).1)
    ensures Decode(b) == Err(DamageError(f))
  {
    hide Refusal, ReadPayload, AgreeOutside;
    if f.Payload? {
      PayloadDamage(a, b, f.at, f.len);
    } else {
      HeaderDamage(a, b, f);
    }
  }

  function FieldAt(i: nat): Field {
    if i < 10 then Magic else if i < 14 then Version else if i < 22 then Length else if i < 26 then Sum
    else Payload(i - HEADER_SIZE, 1)
  }

  lemma UpdateAgrees(a: Bytes, i: nat, b: Byte, from: nat, to: nat)
    requires from <= i < to <= |a|
    ensures AgreeOutside(a, a[i := b], from, to)
  {}

  lemma DecodedLength(a: Bytes)
    requires Decode(a).Ok?
    ensures |a| >= HEADER_SIZE
  {
    hide Crc32, ReadPayload, Signature, FromLittleEndian;
  }

  /** No single changed byte, anywhere in the file, goes unnoticed. */
  lemma ChangedByteIsRefused(a: Bytes, i: nat, b: Byte)
    requires Decode(a).Ok? && i < |a| && a[i] != b
    ensures Decode(a[i := b]) == Err(DamageError(FieldAt(i)))
  {
    hide Decode, AgreeOutside;
    var d := a[i := b];
    assert d[i] != a[i];
    var f := FieldAt(i);
    DecodedLength(a);
    UpdateAgrees(a, i, b, Range(f).0, Range(f).1);
    DamageIsRefused(a, d, f);
  }

  /** Every file cut short is refused. */
  lemma TruncatedIsRefused(a: Bytes, n: nat)
    requires Decode(a).Ok? && n < |a|
    ensures Decode(a[..n]) == Err(if n < HEADER_SIZE then InvalidHeader else PayloadLengthMismatch)
  {
    hide Crc32, ReadPayload, Signature, FromLittleEndian;
    if n >= HEADER_SIZE {
      var b := a[..n];
      assert b[..10] == a[..10] && b[10..14] == a[10..14] && b[14..22] == a[14..22];
    }
  }

  /** Every file with something appended is refused. */
  lemma ExtendedIsRefused(a: Bytes, more: Bytes)
    requires Decode(a).Ok? && more != []
    ensures Decode(a + more) == Err(PayloadLengthMismatch)
  {
    hide Crc32, ReadPayload, Signature, FromLittleEndian;
    var b := a + more;
    assert b[..10] == a[..10] && b[10..14] == a[10..14] && b[14..22] == a[14..22];
  }

  // There are readable files: that of an empty database, for one.
  lemma EmptyDatabaseReads()
    ensures var db := Database([], [], []);
            Encode(db).Ok? && Decode(Encode(db).value) == Ok(db)
  {
    var db := Database([], [], []);
    assert |EncodePayload(db).value| == 12;
    hide Decode, Header;
    FileRoundTrip(db);
  }
}
