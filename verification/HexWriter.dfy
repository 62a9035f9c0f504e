/** The bounded hex writer: uppercase hex of as much of the source as its loop guard
    admits, always terminated, never outside the destination. */
module HexWriter {
  import opened Values

  // '0'..'9' and 'A'..'F'.
  function Digit(n: nat): (r: Byte)
    requires n < 16
    ensures r != 0
  {
    if n < 10 then 48 + n else 55 + n
  }

  function DigitValue(c: Byte): nat {
    if 48 <= c <= 57 then c - 48 else if 65 <= c <= 70 then c - 55 else 0
  }

  function Hex(src: Bytes): (r: Bytes)
    ensures |r| == 2 * |src| && 0 !in r
  {
    if src == [] then [] else Hex(src[..|src| - 1]) + [Digit(src[|src| - 1] / 16), Digit(src[|src| - 1] % 16)]
  }

  function Unhex(text: Bytes): seq<int>
    decreases |text|
  {
    if |text| < 2 then []
    else Unhex(text[..|text| - 2]) + [16 * DigitValue(text[|text| - 2]) + DigitValue(text[|text| - 1])]
  }

  /** The source prefix can be recovered from what was written. */
  lemma {:induction false} UnhexUndoesHex(src: Bytes)
    ensures Unhex(Hex(src)) == src
  {
    if src != [] {
      var n := |src| - 1;
      var text := Hex(src);
      UnhexUndoesHex(src[..n]);
      assert text[..|text| - 2] == Hex(src[..n]);
      assert src == src[..n] + [src[n]];
    }
  }

  // The digits in order, 0 to 9 and A to F.
  const DIGITS: Bytes := [48, 49, 50, 51, 52, 53, 54, 55, 56, 57, 65, 66, 67, 68, 69, 70]

  /** Byte i is written as its high digit and then its low digit, in upper case. */
  lemma {:induction false} HexAt(src: Bytes, i: nat)
    requires i < |src|
    ensures Hex(src)[2 * i] == DIGITS[src[i] / 16] && Hex(src)[2 * i + 1] == DIGITS[src[i] % 16]
  {
    var n := |src| - 1;
    if i < n {
      HexAt(src[..n], i);
    } else {
      DigitListed(src[i] / 16);
      DigitListed(src[i] % 16);
    }
  }

  lemma DigitListed(n: nat)
    requires n < 16
    ensures Digit(n) == DIGITS[n]
  {}

  // How many source bytes the guard lets through.
  function Admitted(dstlen: nat, srclen: nat): nat {
    var room := if dstlen < 2 then 0 else (dstlen - 2) / 2;
    if srclen <= room then srclen else room
  }

  lemma HexSnoc(src: Bytes, k: nat)
    requires k < |src|
    ensures Hex(src[..k + 1]) == Hex(src[..k]) + [Digit(src[k] / 16), Digit(src[k] % 16)]
  {
    assert src[..k + 1][..k] == src[..k];
  }

  // One turn: two digits and the terminator.
  method WriteByte(dst: array<Byte>, at: nat, b: Byte)
    requires at + 2 < dst.Length
    modifies dst
    ensures dst[..at + 2] == old(dst[..at]) + [Digit(b / 16), Digit(b % 16)] && dst[at + 2] == 0
    ensures dst[at + 3..] == old(dst[at + 3..])
  {
    dst[at], dst[at + 1], dst[at + 2] := Digit(b / 16), Digit(b % 16), 0;
  }

  lemma SameBehind(a: Bytes, b: Bytes, i: nat, j: nat)
    requires i <= j <= |a| == |b| && a[i..] == b[i..]
    ensures a[j..] == b[j..]
  {
    assert a[j..] == a[i..][j - i..] && b[j..] == b[i..][j - i..];
  }

  /** Writes inside the destination only, leaves it NUL-terminated, and everything
      behind the terminator as it was. */
  method Str2Hex(dst: array<Byte>, src: Bytes)
    requires dst.Length > 0
    modifies dst
    ensures var n := Admitted(dst.Length, |src|);
            && 2 * n < dst.Length
            && dst[..2 * n] == Hex(src[..n]) && dst[2 * n] == 0
            && dst[2 * n + 1..] == old(dst[..])[2 * n + 1..]
  {
    hide Hex;
    assert Hex(src[..0]) == [];
    var at, k := 0, 0;
    dst[0] := 0;
    while at + 3 < dst.Length && k < |src|
      invariant 0 <= k <= |src| && at == 2 * k < dst.Length && k <= Admitted(dst.Length, |src|)
      invariant dst[..at] == Hex(src[..k]) && dst[at] == 0
      invariant dst[at + 1..] == old(dst[..])[at + 1..]
    {
      ghost var before := dst[..];
      HexSnoc(src, k);
      WriteByte(dst, at, src[k]);
      SameBehind(before, old(dst[..]), at + 1, at + 3);
      assert dst[at + 3..] == before[at + 3..];
      at := at + 2;
      k := k + 1;
    }
  }
}
