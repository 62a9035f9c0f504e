/** The variable-length code of document ids: 7-bit groups, most significant first,
    the last byte marked by its high bit. */
module FtsVlc {
  import opened Values

  // The groups of v above its last one; none for zero.
  function Head(v: nat): Bytes {
    if v == 0 then [] else Head(v / 0x80) + [v % 0x80]
  }

  function Encode(v: nat): Bytes {
    Head(v / 0x80) + [v % 0x80 + 0x80]
  }

  /** The decoder: shifts groups in, modulo the 64-bit word, up to the marked byte.
      None when the input ends first. */
  function DecodeFrom(acc: nat, bytes: Bytes): Option<(nat, Bytes)>
    decreases |bytes|
  {
    if bytes == [] then None
    else if bytes[0] >= 0x80 then Some(((acc * 0x80 + (bytes[0] - 0x80)) % WORD, bytes[1..]))
    else DecodeFrom((acc * 0x80 + bytes[0]) % WORD, bytes[1..])
  }

  function Decode(bytes: Bytes): Option<(nat, Bytes)> { DecodeFrom(0, bytes) }

  // ---- Round trips ----------------------------------------------------------

  lemma PlainByte(acc: nat, b: Byte, tail: Bytes)
    requires b < 0x80 && acc * 0x80 + b < WORD
    ensures DecodeFrom(acc, [b] + tail) == DecodeFrom(acc * 0x80 + b, tail)
  {
    assert ([b] + tail)[1..] == tail;
  }

  lemma MarkedByte(acc: nat, b: Byte, tail: Bytes)
    requires b < 0x80 && acc * 0x80 + b < WORD
    ensures DecodeFrom(acc, [b + 0x80] + tail) == Some((acc * 0x80 + b, tail))
  {
    assert ([b + 0x80] + tail)[1..] == tail;
  }

  lemma {:induction false} HeadDecodes(v: nat, tail: Bytes)
    requires v < WORD
    ensures DecodeFrom(0, Head(v) + tail) == DecodeFrom(v, tail)
  {
    hide DecodeFrom;
    if v == 0 {
      assert [] + tail == tail;
    } else {
      assert Head(v) + tail == Head(v / 0x80) + ([v % 0x80] + tail);
      HeadDecodes(v / 0x80, [v % 0x80] + tail);
      PlainByte(v / 0x80, v % 0x80, tail);
    }
  }

  /** Decoding a code followed by anything returns the value and consumes exactly the
      code. */
  lemma CodeDecodes(v: nat, tail: Bytes)
    requires v < WORD
    ensures Decode(Encode(v) + tail) == Some((v, tail))
  {
    hide DecodeFrom, Head;
    var last := [v % 0x80 + 0x80];
    assert Encode(v) + tail == Head(v / 0x80) + (last + tail);
    HeadDecodes(v / 0x80, last + tail);
    MarkedByte(v / 0x80, v % 0x80, tail);
  }

  function EncodeAll(values: seq<nat>): Bytes {
    if values == [] then [] else Encode(values[0]) + EncodeAll(values[1..])
  }

  function DecodeAll(bytes: Bytes): Option<seq<nat>>
    decreases |bytes|
  {
    if bytes == [] then Some([])
    else
      match Decode(bytes)
      case None => None
      case Some((v, rest)) =>
        DecodeShortens(0, bytes);
        match DecodeAll(rest)
        case None => None
        case Some(vs) => Some([v] + vs)
  }

  lemma {:induction false} DecodeShortens(acc: nat, bytes: Bytes)
    ensures DecodeFrom(acc, bytes).Some? ==> |DecodeFrom(acc, bytes).value.1| < |bytes|
    decreases |bytes|
  {
    if bytes != [] && bytes[0] < 0x80 { DecodeShortens((acc * 0x80 + bytes[0]) % WORD, bytes[1..]); }
  }

  /** Codes need no separators: any concatenation decodes back to its list. */
  lemma {:induction false} ListDecodes(values: seq<nat>)
    requires forall i :: 0 <= i < |values| ==> values[i] < WORD
    ensures DecodeAll(EncodeAll(values)) == Some(values)
  {
    if values != [] {
      CodeDecodes(values[0], EncodeAll(values[1..]));
      ListDecodes(values[1..]);
      assert values == [values[0]] + values[1..];
    }
  }

  // ---- Length ---------------------------------------------------------------

  function Pow128(n: nat): (r: nat)
    ensures r > 0
  {
    if n == 0 then 1 else 0x80 * Pow128(n - 1)
  }

  lemma {:induction false} HeadLength(v: nat)
    ensures v < Pow128(|Head(v)|) && (v > 0 ==> |Head(v)| > 0 && Pow128(|Head(v)| - 1) <= v)
  {
    if v > 0 { HeadLength(v / 0x80); }
  }

  /** A code of n bytes is used exactly for the values that need n groups. */
  lemma CodeLength(v: nat)
    ensures var n := |Encode(v)|; n >= 1 && v < Pow128(n) && (n > 1 ==> Pow128(n - 1) <= v)
  {
    HeadLength(v / 0x80);
  }

  lemma {:induction false} PowMonotone(a: nat, b: nat)
    requires a <= b
    ensures Pow128(a) <= Pow128(b)
  {
    if a < b { PowMonotone(a, b - 1); }
  }

  lemma TenGroups()
    ensures Pow128(9) == 0x8000_0000_0000_0000 && Pow128(10) >= WORD
  {
    assert Pow128(3) == 0x20_0000;
    assert Pow128(6) == 0x400_0000_0000;
  }

  lemma AtMostTenBytes(v: nat)
    requires v < WORD
    ensures |Encode(v)| <= 10
  {
    CodeLength(v);
    TenGroups();
    if |Encode(v)| > 10 { PowMonotone(10, |Encode(v)| - 1); }
  }

  // What n bytes can add to an accumulated value.
  lemma {:induction false} DecodeBound(acc: nat, bytes: Bytes)
    requires DecodeFrom(acc, bytes).Some?
    ensures var (v, rest) := DecodeFrom(acc, bytes).value;
            |rest| < |bytes| && v < (acc + 1) * Pow128(|bytes| - |rest|)
    decreases |bytes|
  {
    if bytes[0] >= 0x80 {
      assert Pow128(1) == 0x80;
      Fits(acc * 0x80 + (bytes[0] - 0x80));
      assert acc * 0x80 + (bytes[0] - 0x80) < (acc + 1) * 0x80;
    } else {
      var next := (acc * 0x80 + bytes[0]) % WORD;
      Fits(acc * 0x80 + bytes[0]);
      DecodeBound(next, bytes[1..]);
      var (v, rest) := DecodeFrom(next, bytes[1..]).value;
      BoundGrows(v, acc, next, Pow128(|bytes[1..]| - |rest|));
    }
  }

  lemma BoundGrows(v: nat, acc: nat, next: nat, p: nat)
    requires v < (next + 1) * p && next + 1 <= (acc + 1) * 0x80
    ensures v < (acc + 1) * (0x80 * p)
  {
    Times(next + 1, (acc + 1) * 0x80, p);
    Associate(acc + 1, 0x80, p);
  }

  lemma Associate(a: nat, b: nat, c: nat)
    ensures a * b * c == a * (b * c)
  {}

  lemma Fits(n: nat)
    ensures n % WORD <= n
  {}

  lemma Times(a: nat, b: nat, c: nat)
    requires a <= b
    ensures a * c <= b * c
  {}

  /** The code is the shortest: no shorter byte string decodes to the same value. */
  lemma FewestBytes(v: nat, bytes: Bytes)
    requires Decode(bytes) == Some((v, []))
    ensures |Encode(v)| <= |bytes|
  {
    DecodeBound(0, bytes);
    CodeLength(v);
    if |Encode(v)| > |bytes| { PowMonotone(|bytes|, |Encode(v)| - 1); }
  }

  // ---- The table of boundary values -----------------------------------------

  function Times7F(n: nat): (r: Bytes)
    ensures |r| == n
  {
    seq(n, _ => 0x7F)
  }

  function Zeros(n: nat): (r: Bytes)
    ensures |r| == n
  {
    seq(n, _ => 0)
  }

  lemma {:induction false} HeadOfPower(n: nat)
    ensures Head(Pow128(n)) == [1] + Zeros(n)
  {
    if n == 0 {
      assert Head(0) == [];
      assert [] + [1] == [1] + Zeros(0);
    } else {
      HeadOfPower(n - 1);
      assert Zeros(n - 1) + [0] == Zeros(n);
      assert Pow128(n) / 0x80 == Pow128(n - 1) && Pow128(n) % 0x80 == 0;
      assert Head(Pow128(n)) == [1] + Zeros(n - 1) + [0];
    }
  }

  lemma HeadStep(w: nat)
    ensures Head(0x80 * w + 0x7F) == Head(w) + [0x7F]
  {
    var v := 0x80 * w + 0x7F;
    assert v / 0x80 == w && v % 0x80 == 0x7F;
  }

  lemma SmallHeads()
    ensures Head(0) == [] && Head(1) == [1]
  {
    assert Head(1) == Head(0) + [1];
  }

  // The head of 128^n - 1, and of twice that power less one.
  lemma {:induction false} HeadBelowPower(n: nat, lead: nat)
    requires lead == 1 || lead == 2
    ensures Head(lead * Pow128(n) - 1) == (if lead == 2 then [1] else []) + Times7F(n)
  {
    SmallHeads();
    if n == 0 {
      assert Pow128(0) == 1;
      assert [1] + Times7F(0) == [1] && [] + Times7F(0) == [];
    } else {
      HeadBelowPower(n - 1, lead);
      var w := lead * Pow128(n - 1) - 1;
      hide Head;
      assert lead * Pow128(n) - 1 == 0x80 * w + 0x7F;
      HeadStep(w);
      assert Times7F(n - 1) + [0x7F] == Times7F(n);
    }
  }

  /** The first and the last value of every code length, as the test's table lists
      them. */
  lemma TableRows(n: nat)
    requires 1 <= n
    ensures Encode(if n == 1 then 0 else Pow128(n - 1)) == (if n == 1 then [0x80] else [1] + Zeros(n - 2) + [0x80])
    ensures Encode(Pow128(n) - 1) == Times7F(n - 1) + [0xFF]
  {
    if n > 1 {
      HeadOfPower(n - 2);
      assert Pow128(n - 1) / 0x80 == Pow128(n - 2) && Pow128(n - 1) % 0x80 == 0;
    } else {
      assert Head(0) == [];
    }
    HeadBelowPower(n - 1, 1);
    var v := Pow128(n) - 1;
    assert v == 0x80 * (Pow128(n - 1) - 1) + 0x7F;
    assert v / 0x80 == Pow128(n - 1) - 1 && v % 0x80 == 0x7F;
    assert 1 * Pow128(n - 1) == Pow128(n - 1);
    assert [] + Times7F(n - 1) == Times7F(n - 1);
  }

  // The table's last row: the largest 64-bit value.
  lemma LargestRow()
    ensures Encode(WORD - 1) == [1] + Times7F(8) + [0xFF]
  {
    assert Pow128(8) == 0x100_0000_0000_0000 by {
      assert Pow128(4) == 0x1000_0000;
    }
    HeadBelowPower(8, 2);
    assert (WORD - 1) / 0x80 == 2 * Pow128(8) - 1 && (WORD - 1) % 0x80 == 0x7F;
  }

  // ---- The encoder and the decoder as loops ---------------------------------

  /** Writes the code of a value into a ten-byte buffer. */
  method EncodeInt(val: nat, buf: array<Byte>) returns (len: nat)
    requires val < WORD && buf.Length >= 10
    modifies buf
    ensures len <= 10 && buf[..len] == Encode(val)
  {
    AtMostTenBytes(val);
    len := 1;
    var rest: nat := val / 0x80;
    while rest > 0
      invariant len + |Head(rest)| == |Encode(val)|
      decreases rest
    {
      rest := rest / 0x80;
      len := len + 1;
    }
    assert |Head(val / 0x80)| == len - 1;
    buf[len - 1] := val % 0x80 + 0x80;
    var i := len - 1;
    rest := val / 0x80;
    while i > 0
      invariant 0 <= i < len && |Head(rest)| == i
      invariant Head(rest) + buf[i..len] == Encode(val)
    {
      ghost var done := buf[i..len];
      i := i - 1;
      buf[i] := rest % 0x80;
      assert buf[i..len] == [rest % 0x80] + done;
      assert Head(rest) + done == Head(rest / 0x80) + ([rest % 0x80] + done);
      rest := rest / 0x80;
    }
    assert buf[..len] == buf[0..len] && Head(rest) == [];
    assert [] + buf[0..len] == buf[0..len];
  }

  /** Reads one code from a position and moves the position behind it. */
  method DecodeVlc(buf: array<Byte>, start: nat) returns (val: nat, next: nat)
    requires start <= buf.Length && Decode(buf[start..]).Some?
    ensures start < next <= buf.Length && Decode(buf[start..]) == Some((val, buf[next..]))
  {
    next, val := start, 0;
    while true
      invariant start <= next <= buf.Length
      invariant DecodeFrom(val, buf[next..]) == Decode(buf[start..])
      decreases buf.Length - next
    {
      assert next < buf.Length;
      ghost var rest := buf[next..];
      var b := buf[next];
      next := next + 1;
      assert rest[0] == b && rest[1..] == buf[next..];
      if b >= 0x80 {
        val := (val * 0x80 + (b - 0x80)) % WORD;
        return;
      }
      val := (val * 0x80 + b) % WORD;
    }
  }

  /** The test's check on one value: the code decodes to the value and the position
      ends right behind the code. */
  method CheckRow(val: nat, buf: array<Byte>) returns (len: nat, decoded: nat, next: nat)
    requires val < WORD && buf.Length == 10
    modifies buf
    ensures len <= 10 && buf[..len] == Encode(val) && decoded == val && next == len
  {
    len := EncodeInt(val, buf);
    CodeDecodes(val, buf[len..]);
    assert buf[0..] == buf[..len] + buf[len..];
    decoded, next := DecodeVlc(buf, 0);
    assert |buf[next..]| == |buf[len..]|;
  }
}
