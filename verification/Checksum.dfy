/** CRC-32 as the snapshot file uses it, in its bit-serial form: a 32-bit register,
    least significant bit first, into which the payload is fed bit by bit. */
module Checksum {
  import opened Values

  type Register = c: seq<bool> | |c| == 32 witness seq(32, _ => true)

  function Ones(): Register { seq(32, _ => true) }

  // The low n bits of v.
  function Bits(v: nat, n: nat): (r: seq<bool>)
    ensures |r| == n
  {
    if n == 0 then [] else [v % 2 == 1] + Bits(v / 2, n - 1)
  }

  function Number(bits: seq<bool>): nat {
    if bits == [] then 0 else (if bits[0] then 1 else 0) + 2 * Number(bits[1..])
  }

  function Pow2(n: nat): (r: nat)
    ensures r > 0
  {
    if n == 0 then 1 else 2 * Pow2(n - 1)
  }

  lemma {:induction false} BitsInjective(a: nat, b: nat, n: nat)
    requires a < Pow2(n) && b < Pow2(n) && Bits(a, n) == Bits(b, n)
    ensures a == b
  {
    if n > 0 {
      assert Bits(a, n)[1..] == Bits(a / 2, n - 1) && Bits(b, n)[1..] == Bits(b / 2, n - 1);
      assert Bits(a, n)[0] == Bits(b, n)[0];
      BitsInjective(a / 2, b / 2, n - 1);
    }
  }

  lemma {:induction false} NumberInjective(a: seq<bool>, b: seq<bool>)
    requires |a| == |b| && Number(a) == Number(b)
    ensures a == b
  {
    if a != [] {
      assert a == [a[0]] + a[1..] && b == [b[0]] + b[1..];
      NumberInjective(a[1..], b[1..]);
    }
  }

  lemma {:induction false} NumberBound(a: seq<bool>)
    ensures Number(a) < Pow2(|a|)
  {
    if a != [] { NumberBound(a[1..]); }
  }

  lemma {:induction false} TopBit(v: nat, n: nat)
    requires n > 0 && Pow2(n - 1) <= v < Pow2(n)
    ensures Bits(v, n)[n - 1]
  {
    if n > 1 { TopBit(v / 2, n - 1); }
  }

  // The reflected CRC-32 polynomial. Its top bit is set, which is what makes every
  // step of the register reversible.
  function Polynomial(): (r: Register)
    ensures r[31]
  {
    TwoTo32();
    TopBit(0xEDB88320, 32);
    Bits(0xEDB88320, 32)
  }

  predicate Xor(a: bool, b: bool) { a != b }

  // One message bit: shift right, and add the polynomial when the bit that falls out
  // differs from the message bit.
  function Feed(c: Register, bit: bool): Register {
    FeedWith(c, Xor(c[0], bit), Polynomial())
  }

  predicate FeedBit(c: Register, add: bool, p: Register, i: nat)
    requires i < 32
  {
    Xor(i < 31 && c[i + 1], add && p[i])
  }

  function FeedWith(c: Register, add: bool, p: Register): (r: Register)
    ensures forall i: nat :: i < 32 ==> r[i] == FeedBit(c, add, p, i)
  {
    seq(32, i requires 0 <= i < 32 => FeedBit(c, add, p, i))
  }

  function FeedAll(c: Register, bits: seq<bool>): Register
    decreases |bits|
  {
    if bits == [] then c else FeedAll(Feed(c, bits[0]), bits[1..])
  }

  function Stream(bytes: Bytes): seq<bool> {
    if bytes == [] then [] else Bits(bytes[0], 8) + Stream(bytes[1..])
  }

  function Complement(c: Register): Register {
    seq(32, i requires 0 <= i < 32 => !c[i])
  }

  function Crc32(bytes: Bytes): (r: U32)
  {
    var c := Complement(FeedAll(Ones(), Stream(bytes)));
    NumberBound(c);
    TwoTo32();
    Number(c)
  }

  lemma TwoTo32()
    ensures Pow2(8) == 0x100 && Pow2(31) == 0x8000_0000 && Pow2(32) == 0x1_0000_0000
  {
    assert Pow2(4) == 16;
    assert Pow2(8) == 0x100;
    assert Pow2(12) == 0x1000;
    assert Pow2(16) == 0x1_0000;
    assert Pow2(20) == 0x10_0000;
    assert Pow2(24) == 0x100_0000;
    assert Pow2(28) == 0x1000_0000;
  }

  // ---- What the register remembers ------------------------------------------

  /** Two registers fed two messages of at most 32 bits can only meet again if they
      started apart by exactly the difference of the messages. */
  lemma {:induction false} MeetAgain(a: Register, b: Register, u: seq<bool>, v: seq<bool>)
    requires |u| == |v| <= 32 && FeedAll(a, u) == FeedAll(b, v)
    ensures forall i :: 0 <= i < |u| ==> Xor(a[i], u[i]) == Xor(b[i], v[i])
    ensures forall i :: |u| <= i < 32 ==> a[i] == b[i]
    decreases |u|
  {
    if u != [] {
      var p := Polynomial();
      var a1, b1 := Feed(a, u[0]), Feed(b, v[0]);
      hide FeedAll, Polynomial;
      MeetAgain(a1, b1, u[1..], v[1..]);
      assert a1[31] == b1[31];
      assert a1[31] == FeedBit(a, Xor(a[0], u[0]), p, 31);
      assert Xor(a[0], u[0]) == Xor(b[0], v[0]);
      forall i | 0 < i < |u| ensures Xor(a[i], u[i]) == Xor(b[i], v[i]) {
        assert u[1..][i - 1] == u[i] && v[1..][i - 1] == v[i];
        assert a1[i - 1] == FeedBit(a, Xor(a[0], u[0]), p, i - 1);
        assert b1[i - 1] == FeedBit(b, Xor(b[0], v[0]), p, i - 1);
      }
      forall i | |u| <= i < 32 ensures a[i] == b[i] {
        assert a1[i - 1] == b1[i - 1];
      }
    }
  }

  lemma StepInjective(a: Register, b: Register, bit: bool)
    requires Feed(a, bit) == Feed(b, bit)
    ensures a == b
  {
    hide Feed, FeedAll;
    FeedOne(a, bit);
    FeedOne(b, bit);
    MeetAgain(a, b, [bit], [bit]);
    assert a[0] == b[0];
  }

  lemma FeedOne(c: Register, bit: bool)
    ensures FeedAll(c, [bit]) == Feed(c, bit)
  {
    hide Feed;
    assert [bit][1..] == [];
    assert FeedAll(Feed(c, bit), []) == Feed(c, bit);
  }

  // The same message never brings two registers together.
  lemma {:induction false} FeedInjective(a: Register, b: Register, u: seq<bool>)
    requires FeedAll(a, u) == FeedAll(b, u)
    ensures a == b
    decreases |u|
  {
    if u != [] {
      hide Feed;
      FeedInjective(Feed(a, u[0]), Feed(b, u[0]), u[1..]);
      StepInjective(a, b, u[0]);
    }
  }

  lemma {:induction false} FeedConcat(c: Register, u: seq<bool>, v: seq<bool>)
    ensures FeedAll(c, u + v) == FeedAll(FeedAll(c, u), v)
    decreases |u|
  {
    if u == [] {
      assert u + v == v;
    } else {
      assert (u + v)[1..] == u[1..] + v;
      FeedConcat(Feed(c, u[0]), u[1..], v);
    }
  }

  lemma {:induction false} StreamConcat(a: Bytes, b: Bytes)
    ensures Stream(a + b) == Stream(a) + Stream(b)
  {
    if a == [] {
      assert a + b == b;
    } else {
      assert (a + b)[1..] == a[1..] + b;
      StreamConcat(a[1..], b);
    }
  }

  lemma {:induction false} StreamInjective(a: Bytes, b: Bytes)
    requires |a| == |b| && Stream(a) == Stream(b)
    ensures a == b
  {
    if a != [] {
      TwoTo32();
      assert Stream(a)[..8] == Bits(a[0], 8) && Stream(b)[..8] == Bits(b[0], 8);
      assert Stream(a)[8..] == Stream(a[1..]) && Stream(b)[8..] == Stream(b[1..]);
      BitsInjective(a[0], b[0], 8);
      StreamInjective(a[1..], b[1..]);
      assert a == [a[0]] + a[1..] && b == [b[0]] + b[1..];
    }
  }

  lemma {:induction false} StreamLength(a: Bytes)
    ensures |Stream(a)| == 8 * |a|
  {
    if a != [] { StreamLength(a[1..]); }
  }

  lemma CrcDecides(a: Bytes, b: Bytes)
    requires Crc32(a) == Crc32(b)
    ensures FeedAll(Ones(), Stream(a)) == FeedAll(Ones(), Stream(b))
  {
    var x, y := FeedAll(Ones(), Stream(a)), FeedAll(Ones(), Stream(b));
    NumberInjective(Complement(x), Complement(y));
    forall i | 0 <= i < 32 ensures x[i] == y[i] {
      assert Complement(x)[i] == Complement(y)[i];
    }
  }

  lemma FeedMiddle(before: Bytes, w: Bytes, after: Bytes)
    ensures FeedAll(Ones(), Stream(before + w + after)) ==
            FeedAll(FeedAll(FeedAll(Ones(), Stream(before)), Stream(w)), Stream(after))
  {
    StreamConcat(before + w, after);
    StreamConcat(before, w);
    FeedConcat(Ones(), Stream(before) + Stream(w), Stream(after));
    FeedConcat(Ones(), Stream(before), Stream(w));
  }

  /** The checksum catches every burst: two payloads that differ only inside four
      consecutive bytes never have the same checksum. */
  lemma BurstChangesChecksum(before: Bytes, u: Bytes, v: Bytes, after: Bytes)
    requires |u| == |v| <= 4 && u != v
    ensures Crc32(before + u + after) != Crc32(before + v + after)
  {
    if Crc32(before + u + after) == Crc32(before + v + after) {
      CrcDecides(before + u + after, before + v + after);
      var c := FeedAll(Ones(), Stream(before));
      FeedMiddle(before, u, after);
      FeedMiddle(before, v, after);
      FeedInjective(FeedAll(c, Stream(u)), FeedAll(c, Stream(v)), Stream(after));
      StreamLength(u);
      StreamLength(v);
      MeetAgain(c, c, Stream(u), Stream(v));
      assert Stream(u) == Stream(v);
      StreamInjective(u, v);
    }
  }
}
