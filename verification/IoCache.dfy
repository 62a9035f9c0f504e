/** The chunking loops of the IO_CACHE tests. The cache itself is an explicit
    abstraction: a byte sequence, a read position and a movable end of file. What
    `rand()` returns is an arbitrary sequence of natural numbers. */
module IoCache {
  import opened Values

  class Cache {
    const contents: Bytes
    var position: nat
    var endOfFile: nat

    ghost predicate Valid() reads this {
      position <= endOfFile <= |contents|
    }

    constructor (contents: Bytes)
      ensures Valid() && this.contents == contents && position == 0 && endOfFile == |contents|
    {
      this.contents, this.position, this.endOfFile := contents, 0, |contents|;
    }

    // Copies min(count, bytes left).
    method CopyToFile(count: nat) returns (copied: Bytes)
      requires Valid()
      modifies `position
      ensures Valid()
      ensures position == if count <= endOfFile - old(position) then old(position) + count else endOfFile
      ensures copied == contents[old(position)..position]
    {
      var n := if count <= endOfFile - position then count else endOfFile - position;
      copied := contents[position..position + n];
      position := position + n;
    }

    // Fills buffer[at..at + count] with the next bytes and returns 0, or returns 1
    // when they are not all there.
    method Read(buffer: array<Byte>, at: nat, count: nat) returns (res: nat)
      requires Valid() && at + count <= buffer.Length
      modifies `position, buffer
      ensures Valid()
      ensures res == 0 <==> count <= endOfFile - old(position)
      ensures res == 0 ==> position == old(position) + count
                           && buffer[..] == old(buffer[..at])
                              + contents[old(position)..position] + old(buffer[at + count..])
    {
      if count > endOfFile - position { return 1; }
      forall k | 0 <= k < count { buffer[at + k] := contents[position + k]; }
      position := position + count;
      res := 0;
    }
  }

  // ---- MDEV-10963: copying in random fragments ------------------------------

  // Unsigned 64-bit subtraction.
  function Minus(a: nat, b: nat): nat
    requires a < WORD && b < WORD
  {
    if a >= b then a - b else a + WORD - b
  }

  lemma Monotone(d: nat, a: int, b: int)
    requires a <= b
    ensures d * a <= d * b
  {}

  lemma Divided(n: nat, k: nat)
    requires k > 0
    ensures n / k * k <= n < n / k * k + k
  {}

  /** The divisor 2 * left / k is not zero if and only if twice what is left reaches k. */
  lemma DivisorPositiveExactly(left: nat, k: nat)
    requires k >= 1
    ensures 2 * left / k >= 1 <==> 2 * left >= k
  {
    Divided(2 * left, k);
    if 2 * left / k >= 1 { Monotone(k, 1, 2 * left / k); }
  }

  // With d = 2 * left / k at least 1: 2 * (left - d + 1) >= d * (k - 2) + 2 >= k, so any
  // fragment below d fits and leaves enough for the next divisor.
  lemma EnoughLeft(left: nat, k: nat, fragment: nat)
    requires k >= 2 && 2 * left >= k && fragment < 2 * left / k
    ensures fragment < left && 2 * (left - fragment) >= k
  {
    var d := 2 * left / k;
    Divided(2 * left, k);
    assert d * k == d * (k - 2) + 2 * d;
    Monotone(k - 2, 1, d);
    assert (k - 2) * d == d * (k - 2);
  }

  /** Copies a cache to a file in n fragments of random size and then the rest. Every
      divisor is positive, which it would not be from the start for any smaller cache,
      every fragment but the last fits into what is left, and
      the file ends up with exactly the cache's bytes, even when the last fragment
      overshoots and the final count wraps below zero. */
  method CopyInFragments(cache: Cache, n: nat, rand: nat -> nat) returns (file: Bytes)
    requires cache.Valid() && cache.position == 0 && cache.endOfFile == |cache.contents|
    requires n >= 1 && 2 * |cache.contents| >= n && 2 * |cache.contents| < WORD
    modifies cache
    ensures file == cache.contents && cache.position == |cache.contents|
  {
    var total := |cache.contents|;
    file := [];
    var copiedSize, i := 0, 0;
    while i < n
      invariant 0 <= i <= n && cache.Valid() && cache.endOfFile == total
      invariant file == cache.contents[..cache.position]
      invariant i < n ==> copiedSize < total && cache.position == copiedSize
                          && 2 * (total - copiedSize) >= n - i
      invariant i == n ==> copiedSize < 2 * total && cache.position == if copiedSize <= total then copiedSize else total
    {
      ghost var left := total - copiedSize;
      DivisorPositiveExactly(left, n - i);
      var currSize := rand(i) % (2 * (total - copiedSize) / (n - i));
      if i < n - 1 { EnoughLeft(left, n - i, currSize); }
      assert currSize <= total - copiedSize || i == n - 1;
      ghost var from := cache.position;
      var fragment := cache.CopyToFile(currSize);
      assert cache.contents[..from] + cache.contents[from..cache.position] == cache.contents[..cache.position];
      file := file + fragment;
      copiedSize := copiedSize + currSize;
      i := i + 1;
    }
    ghost var from := cache.position;
    var rest := cache.CopyToFile(Minus(total, copiedSize));
    assert cache.contents[..from] + cache.contents[from..cache.position] == cache.contents[..cache.position];
    file := file + rest;
    assert cache.contents[..total] == cache.contents;
  }

  const BUFF_SIZE_10963: nat := 0x8_0000
  const CACHE_SIZE: nat := 0x4000

  // The test's own sizes meet the bound: 16 fragments of a 512 KiB cache.
  method Mdev10963(cache: Cache, rand: nat -> nat) returns (file: Bytes)
    requires cache.Valid() && cache.position == 0 && cache.endOfFile == |cache.contents| == 524_288
    modifies cache
    ensures file == cache.contents
  {
    file := CopyInFragments(cache, BUFF_SIZE_10963 / (2 * CACHE_SIZE), rand);
  }

  // ---- MDEV-17133: reading up to a moving end of file -----------------------

  const BUFF_SIZE: nat := 0x4_0000
  const EOF_BLOCK: nat := 0x1_0000   // BUFF_SIZE / 4
  const READ_SIZE: nat := 0x4000     // EOF_BLOCK / 4

  // The next end of file, k chunks before the last.
  function NextEnd(endOfFile: nat, k: nat, random: nat): nat
    requires k >= 1
  {
    if k == 1 then BUFF_SIZE
    else
      var next := endOfFile + EOF_BLOCK + EOF_BLOCK / 4 - random % (EOF_BLOCK / 2);
      if next <= BUFF_SIZE then next else BUFF_SIZE
  }

  // How much the i-th read of a chunk takes when `left` bytes of the chunk remain.
  function ReadSize(left: nat, i: nat, random: nat): nat {
    var b := READ_SIZE + READ_SIZE / 4 - random % (READ_SIZE / 2);
    if i == 3 then left else if left <= b then left else b
  }

  function Min19(n: nat): nat { if n <= 19 then n else 19 }

  // One chunk: four reads, each in two parts, the last one completing the chunk.
  method ReadChunk(cache: Cache, buffer: array<Byte>, total: nat, rand: nat -> nat) returns (newTotal: nat)
    requires cache.Valid() && cache.position == total <= cache.endOfFile <= buffer.Length
    requires buffer[..total] == cache.contents[..total]
    modifies cache`position, buffer
    ensures cache.Valid() && newTotal == cache.endOfFile == cache.position
    ensures buffer[..newTotal] == cache.contents[..newTotal]
  {
    newTotal := total;
    var i := 0;
    while i < 4
      invariant 0 <= i <= 4 && cache.Valid() && cache.position == newTotal <= cache.endOfFile
      invariant buffer[..newTotal] == cache.contents[..newTotal]
      invariant i == 4 ==> newTotal == cache.endOfFile
    {
      var size := ReadSize(cache.endOfFile - newTotal, i, rand(i));
      assert size <= cache.endOfFile - newTotal;
      newTotal := ReadParts(cache, buffer, newTotal, size);
      i := i + 1;
    }
  }

  // One read: at most 19 bytes, then the rest. Both succeed.
  method ReadParts(cache: Cache, buffer: array<Byte>, total: nat, size: nat) returns (newTotal: nat)
    requires cache.Valid() && cache.position == total && total + size <= cache.endOfFile <= buffer.Length
    requires buffer[..total] == cache.contents[..total]
    modifies cache`position, buffer
    ensures cache.Valid() && newTotal == total + size == cache.position
    ensures buffer[..newTotal] == cache.contents[..newTotal]
  {
    var head := Min19(size);
    var res := cache.Read(buffer, total, head);
    assert res == 0;
    assert buffer[..total + head] == cache.contents[..total + head];
    res := cache.Read(buffer, total + head, if 19 >= size then 0 else size - 19);
    assert res == 0;
    newTotal := total + size;
    assert buffer[..newTotal] == cache.contents[..newTotal];
  }

  /** Four chunks read the whole cache: the end of file grows strictly and stays
      within the buffer, the total meets it after every chunk, and the reads cover
      the buffer contiguously, every byte once, up to the full size. */
  method Mdev17133(cache: Cache, buffer: array<Byte>, rand: nat -> nat -> nat) returns (ends: seq<nat>)
    requires |cache.contents| == 262_144 == buffer.Length
    modifies cache, buffer
    ensures buffer[..] == cache.contents && cache.position == BUFF_SIZE
    ensures |ends| == 4 && ends[3] == BUFF_SIZE && 0 < ends[0]
    ensures forall i, j :: 0 <= i < j < 4 ==> ends[i] < ends[j]
  {
    cache.position, cache.endOfFile := 0, 0;
    var k, total := 4, 0;
    ends := [];
    while k > 0
      invariant 0 <= k <= 4 && cache.Valid() && cache.position == total == cache.endOfFile
      invariant buffer[..total] == cache.contents[..total]
      invariant |ends| == 4 - k && (forall i, j :: 0 <= i < j < |ends| ==> ends[i] < ends[j])
      invariant ends == [] ==> total == 0
      invariant ends != [] ==> ends[|ends| - 1] == total && 0 < ends[0]
      invariant k == 0 ==> total == BUFF_SIZE
      invariant k > 0 ==> total <= (4 - k) * (EOF_BLOCK + EOF_BLOCK / 4)
    {
      var next := NextEnd(cache.endOfFile, k, rand(k)(4));
      assert cache.endOfFile < next <= BUFF_SIZE;
      cache.endOfFile := next;
      total := ReadChunk(cache, buffer, total, rand(k));
      ends := ends + [next];
      k := k - 1;
    }
    assert buffer[..total] == buffer[..] && cache.contents[..total] == cache.contents;
  }

  // The last read of the last chunk, from the random values before it.
  function LastRead(ends: (nat, nat, nat), takes: (nat, nat, nat)): nat {
    var e1 := NextEnd(0, 4, ends.0);
    var e2 := NextEnd(e1, 3, ends.1);
    var e3 := NextEnd(e2, 2, ends.2);
    var first := ReadSize(BUFF_SIZE - e3, 0, takes.0);
    var second := ReadSize(BUFF_SIZE - e3 - first, 1, takes.1);
    var third := ReadSize(BUFF_SIZE - e3 - first - second, 2, takes.2);
    ReadSize(BUFF_SIZE - e3 - first - second - third, 3, 0)
  }

  /** The buffer each read is compared with has room for one block. Every read fits
      in it, except that the last read of the last chunk does not exactly when the
      random values before it add up to more than 110592. */
  lemma CheckBufferFitsExactly(ends: (nat, nat, nat), takes: (nat, nat, nat))
    ensures LastRead(ends, takes) > EOF_BLOCK <==>
            ends.0 % 0x8000 + ends.1 % 0x8000 + ends.2 % 0x8000
            + takes.0 % 0x2000 + takes.1 % 0x2000 + takes.2 % 0x2000 > 110592
  {}

  lemma OtherReadsFit(start: nat, end: nat, r0: nat, r1: nat, r2: nat)
    requires start <= end
    ensures var first := ReadSize(end - start, 0, r0);
            var second := ReadSize(end - start - first, 1, r1);
            var third := ReadSize(end - start - first - second, 2, r2);
            var left := end - start - first - second - third;
            && first <= EOF_BLOCK && second <= EOF_BLOCK && third <= EOF_BLOCK
            && (end - start <= EOF_BLOCK + EOF_BLOCK / 4 ==> left <= EOF_BLOCK)
  {}

  // It does happen.
  lemma CheckBufferOverrun()
    ensures LastRead((0x7FFF, 0x7FFF, 0x7FFF), (0x1FFF, 0x1FFF, 0x1FFF)) == 77818 && EOF_BLOCK < 77818
  {}
}
