/** What the checksum computes, said without its register: division of polynomials over the
    two-element field. The payload's bits, the first 32 complemented and 32 zeros behind
    them, are divided by the CRC-32 polynomial; the checksum is the complemented remainder,
    its highest coefficient first. */
module Remainder {
  import opened Values
  import opened Arithmetic
  import opened Checksum

  // The exponents of the CRC-32 polynomial.
  function Exponents(): seq<nat> { [32, 26, 23, 22, 16, 12, 11, 10, 8, 7, 5, 4, 2, 1, 0] }

  predicate Coefficient(p: seq<bool>, k: int) { 0 <= k < |p| && p[k] }

  /** The coefficient of x^k in the product of p and the sum of the given powers of x. */
  predicate Product(p: seq<bool>, exponents: seq<nat>, k: int) {
    exponents != [] && Xor(Coefficient(p, k - exponents[0]), Product(p, exponents[1..], k))
  }

  /** The coefficient of x^k in the message, read as a polynomial with its first bit as the
      highest coefficient, shifted by 32 and with its first 32 bits complemented. */
  predicate Dividend(bits: seq<bool>, k: int) {
    var i := |bits| + 31 - k;
    && 0 <= i < |bits| + 32
    && Xor(i < |bits| && bits[i], i < 32)
  }

  /** r is the remainder of the message: the message is a multiple of the polynomial plus
      a polynomial of degree below 32. */
  ghost predicate IsRemainder(bits: seq<bool>, r: seq<bool>) {
    |r| == 32 && exists q :: Divides(bits, q, r)
  }

  ghost predicate Divides(bits: seq<bool>, q: seq<bool>, r: seq<bool>) {
    forall k :: Dividend(bits, k) == Xor(Product(q, Exponents(), k), Coefficient(r, k))
  }

  // ---- The register holds the remainder -------------------------------------

  predicate Lists(exponents: seq<nat>, k: int) { exists i :: 0 <= i < |exponents| && exponents[i] == k }

  ghost predicate AllApart(exponents: seq<nat>) {
    forall i, j :: 0 <= i < j < |exponents| ==> exponents[i] != exponents[j]
  }

  // One more, lowest, coefficient of the quotient.
  lemma {:induction false} ProductNext(q: seq<bool>, add: bool, exponents: seq<nat>, k: int)
    requires AllApart(exponents)
    ensures Product([add] + q, exponents, k) == Xor(Product(q, exponents, k - 1), add && Lists(exponents, k))
    decreases |exponents|
  {
    if exponents != [] {
      var rest := exponents[1..];
      ProductNext(q, add, rest, k);
      assert Lists(exponents, k) <==> exponents[0] == k || Lists(rest, k) by {
        if i :| 0 <= i < |exponents| && exponents[i] == k { assert i > 0 ==> rest[i - 1] == k; }
        if i :| 0 <= i < |rest| && rest[i] == k { assert exponents[i + 1] == k; }
      }
      assert exponents[0] == k ==> !Lists(rest, k);
      assert Coefficient([add] + q, k - exponents[0]) ==
             if k == exponents[0] then add else Coefficient(q, k - 1 - exponents[0]);
    }
  }

  lemma ExponentsApart()
    ensures AllApart(Exponents())
  {}

  lemma ExponentList(k: int)
    ensures Lists(Exponents(), k) <==> k in {32, 26, 23, 22, 16, 12, 11, 10, 8, 7, 5, 4, 2, 1, 0}
  {
    assert Exponents()[0] == 32 && Exponents()[1] == 26 && Exponents()[2] == 23 && Exponents()[3] == 22;
    assert Exponents()[4] == 16 && Exponents()[5] == 12 && Exponents()[6] == 11 && Exponents()[7] == 10;
    assert Exponents()[8] == 8 && Exponents()[9] == 7 && Exponents()[10] == 5 && Exponents()[11] == 4;
    assert Exponents()[12] == 2 && Exponents()[13] == 1 && Exponents()[14] == 0;
  }

  function LowBits(v: nat): seq<bool> { [v % 2 == 1, v / 2 % 2 == 1, v / 4 % 2 == 1, v / 8 % 2 == 1] }

  function Octet(v: nat): seq<bool> { LowBits(v) + LowBits(v / 0x10) }

  lemma LowFour(v: nat, n: nat)
    requires n >= 4
    ensures Bits(v, n) == LowBits(v) + Bits(v / 0x10, n - 4)
  {
    assert v / 2 / 2 == v / 4 && v / 4 / 2 == v / 8 && v / 8 / 2 == v / 0x10;
    assert Bits(v, n) == [v % 2 == 1] + Bits(v / 2, n - 1);
    assert Bits(v / 2, n - 1) == [v / 2 % 2 == 1] + Bits(v / 4, n - 2);
    assert Bits(v / 4, n - 2) == [v / 4 % 2 == 1] + Bits(v / 8, n - 3);
    assert Bits(v / 8, n - 3) == [v / 8 % 2 == 1] + Bits(v / 0x10, n - 4);
  }

  // The lowest byte of a number, bit by bit, and the rest of it.
  lemma LowByte(v: nat, n: nat)
    requires n >= 8
    ensures Bits(v, n) == Octet(v) + Bits(v / 0x100, n - 8)
  {
    var w := v / 0x10;
    hide Bits, LowBits;
    LowFour(v, n);
    LowFour(w, n - 4);
    assert w / 0x10 == v / 0x100;
  }

  lemma Skips(v: nat, n: nat, i: nat)
    requires 8 <= i < n
    ensures Bits(v, n)[i] == Bits(v / 0x100, n - 8)[i - 8]
  {
    hide Bits, LowBits;
    LowByte(v, n);
    assert |Octet(v)| == 8 by { OctetLength(v); }
  }

  lemma OctetLength(v: nat)
    ensures |Octet(v)| == 8
  {}

  lemma First(v: nat, n: nat, i: nat)
    requires i < 8 <= n
    ensures Bits(v, n)[i] == Octet(v)[i]
  {
    hide Bits, LowBits;
    OctetLength(v);
    LowByte(v, n);
  }

  lemma Quarter0(i: nat)
    requires i < 8
    ensures Octet(0xEDB88320)[i] == Lists(Exponents(), 31 - i)
  {
    ExponentList(31 - i);
    hide Lists, Exponents;
    assert Octet(0xEDB88320) == [false, false, false, false, false, true, false, false];
  }

  lemma Quarter1(i: nat)
    requires i < 8
    ensures Octet(0xEDB883)[i] == Lists(Exponents(), 23 - i)
  {
    ExponentList(23 - i);
    hide Lists, Exponents;
    assert Octet(0xEDB883) == [true, true, false, false, false, false, false, true];
  }

  lemma Quarter2(i: nat)
    requires i < 8
    ensures Octet(0xEDB8)[i] == Lists(Exponents(), 15 - i)
  {
    ExponentList(15 - i);
    hide Lists, Exponents;
    assert Octet(0xEDB8) == [false, false, false, true, true, true, false, true];
  }

  lemma Quarter3(i: nat)
    requires i < 8
    ensures Octet(0xED)[i] == Lists(Exponents(), 7 - i)
  {
    ExponentList(7 - i);
    hide Lists, Exponents;
    assert Octet(0xED) == [true, false, true, true, false, true, true, true];
  }

  /** The register's polynomial, bit by bit: its lowest bit is the coefficient of x^31. */
  lemma PolynomialExponents(i: nat)
    requires i < 32
    ensures Polynomial()[i] == Lists(Exponents(), 31 - i)
  {
    hide Lists, Exponents, Bits, Octet;
    var v := 0xEDB88320;
    assert Polynomial() == Bits(v, 32);
    hide Polynomial;
    if i < 8 {
      First(v, 32, i);
      Quarter0(i);
    } else if i < 16 {
      Skips(v, 32, i);
      First(0xEDB883, 24, i - 8);
      Quarter1(i - 8);
    } else if i < 24 {
      Skips(v, 32, i);
      Skips(0xEDB883, 24, i - 8);
      First(0xEDB8, 16, i - 16);
      Quarter2(i - 16);
    } else {
      Skips(v, 32, i);
      Skips(0xEDB883, 24, i - 8);
      Skips(0xEDB8, 16, i - 16);
      First(0xED, 8, i - 24);
      Quarter3(i - 24);
    }
  }

  // The remainder a register stands for.
  function Mirrored(c: Register): (r: seq<bool>)
    ensures |r| == 32
  {
    seq(32, i requires 0 <= i < 32 => c[31 - i])
  }

  // The dividend of a message that is one bit longer.
  lemma DividendNext(bits: seq<bool>, bit: bool, k: int)
    ensures Dividend(bits + [bit], k) == Xor(Dividend(bits, k - 1), bit && k == 32)
  {}

  lemma ProductLow(q: seq<bool>, exponents: seq<nat>, k: int)
    requires k < 0
    ensures !Product(q, exponents, k)
    decreases |exponents|
  {
    if exponents != [] { ProductLow(q, exponents[1..], k); }
  }

  // One message bit is one step of the division.
  lemma DividesNext(bits: seq<bool>, q: seq<bool>, c: Register, bit: bool)
    requires Divides(bits, q, Mirrored(c))
    ensures Divides(bits + [bit], [Xor(c[0], bit)] + q, Mirrored(Feed(c, bit)))
  {
    var add := Xor(c[0], bit);
    var next := Feed(c, bit);
    hide Polynomial, Product, Dividend, Exponents, Lists, Mirrored, Feed;
    ExponentsApart();
    forall k
      ensures Dividend(bits + [bit], k) ==
              Xor(Product([add] + q, Exponents(), k), Coefficient(Mirrored(next), k))
    {
      DividendNext(bits, bit, k);
      ProductNext(q, add, Exponents(), k);
      assert Dividend(bits, k - 1) == Xor(Product(q, Exponents(), k - 1), Coefficient(Mirrored(c), k - 1));
      RemainderNext(c, bit, k);
    }
  }

  // Shifting the remainder and adding the polynomial when its highest coefficient and the
  // message bit differ.
  lemma RemainderNext(c: Register, bit: bool, k: int)
    ensures var add := Xor(c[0], bit);
            Xor(Coefficient(Mirrored(c), k - 1), bit && k == 32) ==
            Xor(add && Lists(Exponents(), k), Coefficient(Mirrored(Feed(c, bit)), k))
  {
    hide Polynomial, Exponents, Lists;
    var add := Xor(c[0], bit);
    var next := Feed(c, bit);
    if 0 <= k < 32 {
      var i: nat := 31 - k;
      PolynomialExponents(i);
      assert next[i] == FeedBit(c, add, Polynomial(), i);
      assert Coefficient(Mirrored(next), k) == next[i];
      assert Coefficient(Mirrored(c), k - 1) == (i < 31 && c[i + 1]);
    } else {
      ExponentsEnd(k);
    }
  }

  lemma ExponentsEnd(k: int)
    requires k < 0 || k >= 32
    ensures Lists(Exponents(), k) <==> k == 32
  {
    ExponentList(k);
  }

  // Before the first bit: the complemented zeros are the remainder themselves.
  lemma DividesNothing()
    ensures Divides([], [], Mirrored(Ones()))
  {
    forall k ensures Dividend([], k) == Xor(Product([], Exponents(), k), Coefficient(Mirrored(Ones()), k)) {
      NoProduct(Exponents(), k);
    }
  }

  lemma {:induction false} NoProduct(exponents: seq<nat>, k: int)
    ensures !Product([], exponents, k)
    decreases |exponents|
  {
    if exponents != [] { NoProduct(exponents[1..], k); }
  }

  lemma {:induction false} RegisterDivides(bits: seq<bool>) returns (q: seq<bool>)
    ensures Divides(bits, q, Mirrored(FeedAll(Ones(), bits)))
    decreases |bits|
  {
    hide Divides, Feed, Mirrored;
    if bits == [] {
      DividesNothing();
      q := [];
    } else {
      var n := |bits| - 1;
      var front := bits[..n];
      var q0 := RegisterDivides(front);
      var c := FeedAll(Ones(), front);
      DividesNext(front, q0, c, bits[n]);
      assert front + [bits[n]] == bits;
      FeedConcat(Ones(), front, [bits[n]]);
      FeedOne(c, bits[n]);
      q := [Xor(c[0], bits[n])] + q0;
    }
  }

  // ---- Remainders are unique ------------------------------------------------

  // The highest coefficient of a product.
  lemma {:induction false} ProductHigh(q: seq<bool>, exponents: seq<nat>, bound: nat, k: int)
    requires forall i :: 0 <= i < |exponents| ==> exponents[i] < bound
    requires forall j :: j > k - bound ==> !Coefficient(q, j)
    ensures !Product(q, exponents, k)
    decreases |exponents|
  {
    if exponents != [] { ProductHigh(q, exponents[1..], bound, k); }
  }

  lemma {:induction false} ProductSum(p: seq<bool>, q: seq<bool>, s: seq<bool>, exponents: seq<nat>, k: int)
    requires forall j :: Coefficient(s, j) == Xor(Coefficient(p, j), Coefficient(q, j))
    ensures Product(s, exponents, k) == Xor(Product(p, exponents, k), Product(q, exponents, k))
    decreases |exponents|
  {
    if exponents != [] { ProductSum(p, q, s, exponents[1..], k); }
  }

  function Sum(p: seq<bool>, q: seq<bool>): (s: seq<bool>)
    ensures forall j :: Coefficient(s, j) == Xor(Coefficient(p, j), Coefficient(q, j))
  {
    var n := if |p| >= |q| then |p| else |q|;
    seq(n, i => Xor(Coefficient(p, i), Coefficient(q, i)))
  }

  // A multiple of the polynomial with no coefficient from x^32 on is zero.
  lemma {:induction false} SmallMultiple(q: seq<bool>, k: int)
    requires forall j :: j >= 32 ==> !Product(q, Exponents(), j)
    ensures !Product(q, Exponents(), k)
    decreases |q|
  {
    if q == [] {
      NoProduct(Exponents(), k);
    } else {
      var n := |q| - 1;
      HighestDropped(q);
      var front := q[..n];
      forall j ensures Product(q, Exponents(), j) == Product(front, Exponents(), j) {
        SameProduct(q, front, Exponents(), j);
      }
      hide Product;
      SmallMultiple(front, k);
    }
  }

  lemma HighestDropped(q: seq<bool>)
    requires q != [] && forall j :: j >= 32 ==> !Product(q, Exponents(), j)
    ensures !q[|q| - 1]
  {
    var n := |q| - 1;
    LeadingExponent();
    hide Exponents;
    var rest := Exponents()[1..];
    ProductHigh(q, rest, 32, n + 32);
    assert Product(q, Exponents(), n + 32) == Xor(Coefficient(q, n), Product(q, rest, n + 32));
  }

  lemma LeadingExponent()
    ensures Exponents() != [] && Exponents()[0] == 32
    ensures forall i :: 0 <= i < |Exponents()[1..]| ==> Exponents()[1..][i] < 32
  {}

  lemma {:induction false} SameProduct(p: seq<bool>, q: seq<bool>, exponents: seq<nat>, k: int)
    requires |q| + 1 == |p| && q == p[..|q|] && !p[|q|]
    ensures Product(p, exponents, k) == Product(q, exponents, k)
    decreases |exponents|
  {
    if exponents != [] { SameProduct(p, q, exponents[1..], k); }
  }

  lemma RemainderUnique(bits: seq<bool>, r: seq<bool>, t: seq<bool>)
    requires IsRemainder(bits, r) && IsRemainder(bits, t)
    ensures r == t
  {
    var p :| Divides(bits, p, r);
    var q :| Divides(bits, q, t);
    var s := Sum(p, q);
    forall k ensures Product(s, Exponents(), k) == Xor(Coefficient(r, k), Coefficient(t, k)) {
      ProductSum(p, q, s, Exponents(), k);
      assert Dividend(bits, k) == Xor(Product(p, Exponents(), k), Coefficient(r, k));
      assert Dividend(bits, k) == Xor(Product(q, Exponents(), k), Coefficient(t, k));
    }
    hide Product;
    forall i | 0 <= i < 32 ensures r[i] == t[i] {
      SmallMultiple(s, i);
      assert Coefficient(r, i) == r[i] && Coefficient(t, i) == t[i];
    }
  }

  // ---- The checksum ---------------------------------------------------------

  // Bit i of a number.
  predicate Bit(v: nat, i: nat) { v / Pow2(i) % 2 == 1 }

  /** The bits of the payload in the order they are fed: byte by byte, lowest bit first. */
  ghost predicate IsMessage(bytes: Bytes, bits: seq<bool>) {
    |bits| == 8 * |bytes| && forall i: nat :: i < |bits| ==> bits[i] == Bit(bytes[i / 8], i % 8)
  }

  /** Bit i of the number is the complement of the coefficient of x^(31 - i). */
  ghost predicate Spells(v: nat, r: seq<bool>)
    requires |r| == 32
  {
    forall i: nat :: i < 32 ==> Bit(v, i) == !r[31 - i]
  }

  lemma {:induction false} BitsAt(v: nat, n: nat, i: nat)
    requires i < n
    ensures Bits(v, n)[i] == Bit(v, i)
  {
    if i > 0 {
      BitsAt(v / 2, n - 1, i - 1);
      DividesTwice(v, 2, Pow2(i - 1));
    }
  }

  lemma {:induction false} StreamIsMessage(bytes: Bytes)
    ensures IsMessage(bytes, Stream(bytes))
  {
    StreamLength(bytes);
    if bytes != [] {
      StreamIsMessage(bytes[1..]);
      var bits, rest := Stream(bytes), Stream(bytes[1..]);
      forall i: nat | i < |bits| ensures bits[i] == Bit(bytes[i / 8], i % 8) {
        if i < 8 {
          BitsAt(bytes[0], 8, i);
        } else {
          assert bits[i] == rest[i - 8] && (i - 8) / 8 == i / 8 - 1 && (i - 8) % 8 == i % 8;
          assert bytes[1..][i / 8 - 1] == bytes[i / 8];
        }
      }
    }
  }

  lemma MessageUnique(bytes: Bytes, a: seq<bool>, b: seq<bool>)
    requires IsMessage(bytes, a) && IsMessage(bytes, b)
    ensures a == b
  {
    hide Bit;
    assert |a| == |b| && forall i: nat :: i < |a| ==> a[i] == b[i];
  }

  lemma {:induction false} NumberAt(bits: seq<bool>, i: nat)
    requires i < |bits|
    ensures Bit(Number(bits), i) == bits[i]
  {
    var n, rest := Number(bits), Number(bits[1..]);
    assert n / 2 == rest && (n % 2 == 1) == bits[0];
    hide Number;
    if i == 0 {
      assert Pow2(0) == 1;
    } else {
      NumberAt(bits[1..], i - 1);
      DividesTwice(n, 2, Pow2(i - 1));
      assert Pow2(i) == 2 * Pow2(i - 1);
    }
  }

  lemma ChecksumAt(bytes: Bytes, i: nat)
    requires i < 32
    ensures Bit(Crc32(bytes), i) == !FeedAll(Ones(), Stream(bytes))[i]
  {
    hide FeedAll, Stream;
    NumberAt(Complement(FeedAll(Ones(), Stream(bytes))), i);
  }

  /** The checksum is the remainder, complemented, its highest coefficient in the lowest
      bit: for every payload, a polynomial of degree below 32 is the remainder of the
      payload's message if and only if the checksum spells it. */
  lemma ChecksumIsRemainder(bytes: Bytes, bits: seq<bool>, r: seq<bool>)
    requires IsMessage(bytes, bits) && |r| == 32
    ensures IsRemainder(bits, r) <==> Spells(Crc32(bytes), r)
  {
    hide FeedAll, Divides, Bit, IsMessage;
    StreamIsMessage(bytes);
    MessageUnique(bytes, bits, Stream(bytes));
    var c := FeedAll(Ones(), bits);
    var q := RegisterDivides(bits);
    assert IsRemainder(bits, Mirrored(c));
    forall i: nat | i < 32 ensures Bit(Crc32(bytes), i) == !c[i] { ChecksumAt(bytes, i); }
    hide Crc32, IsRemainder;
    if IsRemainder(bits, r) { RemainderUnique(bits, r, Mirrored(c)); }
    if Spells(Crc32(bytes), r) {
      forall j | 0 <= j < 32 ensures r[j] == Mirrored(c)[j] { assert Bit(Crc32(bytes), 31 - j) == !r[31 - (31 - j)]; }
      assert r == Mirrored(c);
    }
  }
}
