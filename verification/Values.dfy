/** Runtime values, typed errors and the byte-level names shared by the catalog,
    the row stores and the snapshot file. */
module Values {

  type Byte = b: int | 0 <= b < 0x100
  type U32 = n: int | 0 <= n < 0x1_0000_0000
  type U64 = n: int | 0 <= n < 0x1_0000_0000_0000_0000
  type I64 = n: int | -0x8000_0000_0000_0000 <= n < 0x8000_0000_0000_0000
  type Bytes = seq<Byte>

  // One more than the largest unsigned 64-bit word.
  const WORD: nat := 0x1_0000_0000_0000_0000

  datatype Option<+T> = None | Some(value: T)

  /** The typed errors of the catalog, the row stores, the transactions, the
      concurrency layer and the snapshot file. */
  datatype Error =
    | DuplicateColumn | DuplicateObject | UnknownObject | NameConflict
    | TypeMismatch | VectorDimensionMismatch | InvalidVectorDimension
    | ColumnCountMismatch | DuplicateRow | UnknownRow
    | AlreadyCommitted | AlreadyRolledBack
    | TransactionActive | NoActiveTransaction | TransactionRequired
    | CommitQueueFull | SnapshotRetentionExceeded | CheckpointAlreadyRunning
    | InvalidCommitQueueLimit
    | InvalidHeader | UnsupportedVersion | TruncatedPayload
    | PayloadLengthMismatch | PayloadChecksumMismatch
    | InvalidColumnType | InvalidValueTag | InvalidBooleanEncoding
    | InvalidVectorElementType | RowStoreMismatch | ValueTooLarge | FileNotFound
    | FileTooBig | WriteFailed

  datatype Result<+T> = Ok(value: T) | Err(error: Error) {
    predicate IsFailure() { Err? }
    function PropagateFailure<U>(): Result<U> requires Err? { Err(error) }
    function Extract(): T requires Ok? { value }
  }

  /** A runtime value. Floats are carried as their bit patterns: nothing here
      computes with them, they are stored, compared bit for bit and written out. */
  datatype Value =
    | Null
    | Integer(i: I64)
    | Float(bits: U64)
    | Boolean(b: bool)
    | Text(text: Bytes)
    | Blob(blob: Bytes)
    | Vector(elements: seq<U32>)

  // ASCII-only case folding, as `std.ascii.eqlIgnoreCase` does it.
  function Lower(b: Byte): Byte {
    if 65 <= b <= 90 then b + 32 else b
  }

  function Folded(name: Bytes): (r: Bytes)
    ensures |r| == |name|
    ensures forall i :: 0 <= i < |name| ==> r[i] == Lower(name[i])
  {
    seq(|name|, i requires 0 <= i < |name| => Lower(name[i]))
  }

  predicate NamesEqual(a: Bytes, b: Bytes) {
    Folded(a) == Folded(b)
  }
}
