/** The check value of the checksum, that of the nine digits. The register is followed as a
    machine word, byte by byte. */
module ChecksumValues {
  import opened Values
  import opened Checksum
  import opened Remainder

  predicate Low(v: bv32) { v & 1 == 1 }
  function Half(v: bv32): bv32 { v >> 1 }
  function Mix(a: bv32, b: bv32): bv32 { a ^ b }
  function Added(add: bool): bv32 { if add then 0xEDB88320 else 0 }

  function FeedWord(v: bv32, bit: bool): bv32 { Mix(Half(v), Added(Low(v) != bit)) }

  function FeedFour(v: bv32, a: bool, b: bool, c: bool, d: bool): bv32 {
    FeedWord(FeedWord(FeedWord(FeedWord(v, a), b), c), d)
  }

  // One byte, lowest bit first.
  function FeedOctet(v: bv32, bits: seq<bool>): bv32
    requires |bits| == 8
  {
    FeedFour(FeedFour(v, bits[0], bits[1], bits[2], bits[3]), bits[4], bits[5], bits[6], bits[7])
  }

  // ---- Words, registers and numbers -----------------------------------------

  // The low n bits of a machine word.
  function WordBits(v: bv32, n: nat): (r: seq<bool>)
    ensures |r| == n
  {
    if n == 0 then [] else [Low(v)] + WordBits(Half(v), n - 1)
  }

  function Fourth(v: bv32): bv32 { Half(Half(Half(Half(v)))) }

  function WordLow(v: bv32): seq<bool> { [Low(v), Low(Half(v)), Low(Half(Half(v))), Low(Half(Half(Half(v))))] }

  lemma WordFour(v: bv32, n: nat)
    requires n >= 4
    ensures WordBits(v, n) == WordLow(v) + WordBits(Fourth(v), n - 4)
  {
    hide Low, Half, WordBits;
    WordTwo(v, n);
    WordTwo(Half(Half(v)), n - 2);
  }

  lemma WordTwo(v: bv32, n: nat)
    requires n >= 2
    ensures WordBits(v, n) == [Low(v), Low(Half(v))] + WordBits(Half(Half(v)), n - 2)
  {
    hide Low, Half;
    assert WordBits(Half(v), n - 1) == [Low(Half(v))] + WordBits(Half(Half(v)), n - 2);
  }

  // Four bits at a time the word and the number agree.
  predicate Agree(v: bv32, m: nat, k: nat) {
    k == 0 || (WordLow(v) == LowBits(m) && Agree(Fourth(v), m / 0x10, k - 1))
  }

  lemma {:induction false} SameBits(v: bv32, m: nat, k: nat)
    requires Agree(v, m, k)
    ensures WordBits(v, 4 * k) == Bits(m, 4 * k)
    decreases k
  {
    hide Low, Half, WordLow, LowBits, Fourth;
    if k > 0 {
      SameBits(Fourth(v), m / 0x10, k - 1);
      WordFour(v, 4 * k);
      LowFour(m, 4 * k);
    }
  }

  // ---- Feeding a word -------------------------------------------------------

  lemma HalfMix(a: bv32, b: bv32)
    ensures Half(Mix(a, b)) == Mix(Half(a), Half(b))
    ensures Low(Mix(a, b)) == Xor(Low(a), Low(b))
  {}

  lemma {:induction false} WordMix(a: bv32, b: bv32, n: nat, i: nat)
    requires i < n
    ensures WordBits(Mix(a, b), n)[i] == Xor(WordBits(a, n)[i], WordBits(b, n)[i])
    decreases n
  {
    hide Low, Half, Mix;
    HalfMix(a, b);
    if i > 0 { WordMix(Half(a), Half(b), n - 1, i - 1); }
  }

  lemma {:induction false} WordHalf(v: bv32, n: nat, i: nat)
    requires i + 1 < n
    ensures WordBits(Half(v), n)[i] == WordBits(v, n)[i + 1]
    decreases n
  {
    hide Low, Half;
    if i > 0 { WordHalf(Half(v), n - 1, i - 1); }
  }

  // A word below 2^i has no bit i.
  lemma {:induction false} WordTop(v: bv32, n: nat, i: nat, bound: bv32)
    requires i < n && v < bound && IsPower(bound, i)
    ensures !WordBits(v, n)[i]
    decreases n
  {
    hide Half, Low;
    if i > 0 {
      HalfBound(v, bound);
      WordTop(Half(v), n - 1, i - 1, Half(bound));
    } else {
      LowBound(v);
    }
  }

  // bound is 2^i.
  predicate IsPower(bound: bv32, i: nat) {
    if i == 0 then bound == 1 else !Low(bound) && IsPower(Half(bound), i - 1)
  }

  lemma HalfBound(v: bv32, bound: bv32)
    requires v < bound && !Low(bound)
    ensures Half(v) < Half(bound)
  {}

  lemma LowBound(v: bv32)
    requires v < 1
    ensures !Low(v)
  {}

  lemma TopPower(bound: bv32, i: nat)
    requires IsPower(Fourth(bound), i) && WordLow(bound) == [false, false, false, false]
    ensures IsPower(bound, i + 4)
  {
    hide Low, Half;
    var a, b, c := Half(bound), Half(Half(bound)), Half(Half(Half(bound)));
    assert IsPower(c, i + 1);
    assert IsPower(b, i + 2);
    assert IsPower(a, i + 3);
  }

  // ---- Constants ------------------------------------------------------------

  lemma PolynomialAgreesAbove()
    ensures Agree(0xEDB8, 0xEDB8, 4)
  {
    assert Agree(0xE, 0xE, 1);
    assert Agree(0xED, 0xED, 2);
    assert Agree(0xEDB, 0xEDB, 3);
  }

  lemma PolynomialAgrees()
    ensures Agree(0xEDB88320, 0xEDB88320, 8)
  {
    PolynomialAgreesAbove();
    assert Agree(0xEDB88, 0xEDB88, 5);
    assert Agree(0xEDB883, 0xEDB883, 6);
    assert Agree(0xEDB8832, 0xEDB8832, 7);
  }

  lemma CheckAgreesAbove()
    ensures Agree(0xCBF4, 0xCBF4, 4)
  {
    assert Agree(0xC, 0xC, 1);
    assert Agree(0xCB, 0xCB, 2);
    assert Agree(0xCBF, 0xCBF, 3);
  }

  lemma CheckAgrees()
    ensures Agree(0xCBF43926, 0xCBF43926, 8)
  {
    CheckAgreesAbove();
    assert Agree(0xCBF43, 0xCBF43, 5);
    assert Agree(0xCBF439, 0xCBF439, 6);
    assert Agree(0xCBF4392, 0xCBF4392, 7);
  }

  lemma PolynomialWord()
    ensures WordBits(0xEDB88320, 32) == Polynomial()
  {
    PolynomialAgrees();
    SameBits(0xEDB88320, 0xEDB88320, 8);
  }

  lemma PowersOfTwo()
    ensures IsPower(0x8000_0000, 31)
  {
    assert IsPower(1, 0) && IsPower(2, 1) && IsPower(4, 2) && IsPower(8, 3);
    TopPower(0x80, 3);
    TopPower(0x800, 7);
    TopPower(0x8000, 11);
    TopPower(0x8_0000, 15);
    TopPower(0x80_0000, 19);
    TopPower(0x800_0000, 23);
    TopPower(0x8000_0000, 27);
  }

  lemma HalfTop(v: bv32)
    ensures !WordBits(Half(v), 32)[31]
  {
    assert Half(v) < 0x8000_0000;
    hide Half;
    PowersOfTwo();
    WordTop(Half(v), 32, 31, 0x8000_0000);
  }

  lemma {:induction false} WordZero(n: nat, i: nat)
    requires i < n
    ensures !WordBits(0, n)[i]
    decreases n
  {
    assert Half(0) == 0 && !Low(0);
    if i > 0 { WordZero(n - 1, i - 1); }
  }

  lemma WordStart(v: bv32)
    ensures WordBits(v, 32)[0] == Low(v)
  {}

  /** Feeding the word is feeding the register. */
  lemma FeedsWord(v: bv32, bit: bool)
    ensures Feed(WordBits(v, 32), bit) == WordBits(FeedWord(v, bit), 32)
  {
    hide Polynomial, WordBits, Half, Low, Mix;
    PolynomialWord();
    WordStart(v);
    HalfTop(v);
    var c, next := WordBits(v, 32), Feed(WordBits(v, 32), bit);
    var add := Low(v) != bit;
    forall i: nat | i < 32 ensures next[i] == WordBits(FeedWord(v, bit), 32)[i] {
      assert next[i] == FeedBit(c, add, Polynomial(), i);
      WordMix(Half(v), Added(add), 32, i);
      if i < 31 { WordHalf(v, 32, i); }
      WordZero(32, i);
    }
  }

  lemma FeedsOctet(v: bv32, bits: seq<bool>)
    requires |bits| == 8
    ensures FeedAll(WordBits(v, 32), bits) == WordBits(FeedOctet(v, bits), 32)
  {
    hide Feed, FeedFour, WordBits;
    FeedsFour(v, bits[..4]);
    FeedsFour(FeedFour(v, bits[0], bits[1], bits[2], bits[3]), bits[4..]);
    FeedConcat(WordBits(v, 32), bits[..4], bits[4..]);
    assert bits[..4] + bits[4..] == bits;
  }

  lemma FeedsFour(v: bv32, bits: seq<bool>)
    requires |bits| == 4
    ensures FeedAll(WordBits(v, 32), bits) == WordBits(FeedFour(v, bits[0], bits[1], bits[2], bits[3]), 32)
  {
    hide Feed, FeedWord, WordBits;
    var a := FeedWord(v, bits[0]);
    var b := FeedWord(a, bits[1]);
    var c := FeedWord(b, bits[2]);
    FeedsWord(v, bits[0]);
    FeedsWord(a, bits[1]);
    FeedsWord(b, bits[2]);
    FeedsWord(c, bits[3]);
    var rest := bits[1..];
    assert rest[1..] == bits[2..] && bits[2..][1..] == bits[3..] && bits[3..][1..] == [];
    assert FeedAll(WordBits(c, 32), bits[3..]) == WordBits(FeedWord(c, bits[3]), 32);
    assert FeedAll(WordBits(b, 32), bits[2..]) == FeedAll(WordBits(c, 32), bits[3..]);
    assert FeedAll(WordBits(a, 32), rest) == FeedAll(WordBits(b, 32), bits[2..]);
  }

  // ---- Whole payloads -------------------------------------------------------

  // The word after the bytes.
  function WordAfter(v: bv32, bytes: Bytes): bv32
    decreases |bytes|
  {
    if bytes == [] then v else WordAfter(FeedOctet(v, Octet(bytes[0])), bytes[1..])
  }

  lemma OctetIsByte(b: Byte)
    ensures Bits(b, 8) == Octet(b)
  {
    LowByte(b, 8);
    assert Bits(b / 0x100, 0) == [];
  }

  lemma {:induction false} FeedsBytes(v: bv32, bytes: Bytes)
    ensures FeedAll(WordBits(v, 32), Stream(bytes)) == WordBits(WordAfter(v, bytes), 32)
    decreases |bytes|
  {
    hide Feed, FeedOctet, WordBits, Bits, Octet;
    if bytes != [] {
      var bits := Bits(bytes[0], 8);
      OctetIsByte(bytes[0]);
      FeedConcat(WordBits(v, 32), bits, Stream(bytes[1..]));
      FeedsOctet(v, bits);
      FeedsBytes(FeedOctet(v, bits), bytes[1..]);
    }
  }

  // The complement, bit by bit.
  lemma FlippedWord(w: bv32)
    ensures Complement(WordBits(w, 32)) == WordBits(Mix(w, 0xFFFF_FFFF), 32)
  {
    hide WordBits, Mix;
    OnesWord();
    forall i | 0 <= i < 32 ensures Complement(WordBits(w, 32))[i] == WordBits(Mix(w, 0xFFFF_FFFF), 32)[i] {
      WordMix(w, 0xFFFF_FFFF, 32, i);
      assert Ones()[i];
    }
  }

  lemma {:induction false} NumberOfBits(v: nat, n: nat)
    requires v < Pow2(n)
    ensures Number(Bits(v, n)) == v
  {
    if n > 0 {
      NumberOfBits(v / 2, n - 1);
      assert Bits(v, n)[1..] == Bits(v / 2, n - 1);
    }
  }

  /** The checksum of a payload, from the word its bytes leave behind. */
  lemma ChecksumOfWord(bytes: Bytes, v: bv32, m: nat)
    requires v == Mix(WordAfter(0xFFFF_FFFF, bytes), 0xFFFF_FFFF) && Agree(v, m, 8) && m < 0x1_0000_0000
    ensures Crc32(bytes) == m
  {
    hide FeedAll, Stream, WordBits, WordAfter, Bits, Agree, Mix, Complement;
    OnesWord();
    FeedsBytes(0xFFFF_FFFF, bytes);
    FlippedWord(WordAfter(0xFFFF_FFFF, bytes));
    SameBits(v, m, 8);
    TwoTo32();
    NumberOfBits(m, 32);
  }

  lemma OnesWord()
    ensures WordBits(0xFFFF_FFFF, 32) == Ones()
  {
    assert AllSet(0xF, 4);
    assert AllSet(0xFF, 8);
    assert AllSet(0xFFF, 12);
    assert AllSet(0xFFFF, 16);
    assert AllSet(0xF_FFFF, 20);
    assert AllSet(0xFF_FFFF, 24);
    assert AllSet(0xFFF_FFFF, 28);
    hide WordBits;
    forall i: nat | i < 32 ensures WordBits(0xFFFF_FFFF, 32)[i] { OnesAt(0xFFFF_FFFF, 32, i); }
  }

  // All of the low n bits are set.
  predicate AllSet(v: bv32, n: nat) { n == 0 || (Low(v) && AllSet(Half(v), n - 1)) }

  lemma {:induction false} OnesAt(v: bv32, n: nat, i: nat)
    requires i < n <= 32 && AllSet(v, n)
    ensures WordBits(v, n)[i]
    decreases n
  {
    hide Low, Half;
    if i > 0 { OnesAt(Half(v), n - 1, i - 1); }
  }

  // ---- Known values ---------------------------------------------------------

  // The bits of a digit's byte.
  lemma DigitOctet(d: nat)
    requires d < 10
    ensures Octet(48 + d) == LowBits(d) + [true, true, false, false]
  {
    assert (48 + d) / 0x10 == 3 && (48 + d) / 2 == 24 + d / 2;
    assert (48 + d) / 4 == 12 + d / 4 && (48 + d) / 8 == 6 + d / 8;
  }

  lemma DigitFeeds(v: bv32, d: nat, bits: seq<bool>, w: bv32, next: bv32)
    requires d < 10 && LowBits(d) == bits && |bits| == 4
    requires FeedFour(v, bits[0], bits[1], bits[2], bits[3]) == w && FeedFour(w, true, true, false, false) == next
    ensures FeedOctet(v, Octet(48 + d)) == next
  {
    hide FeedFour, Octet, LowBits;
    DigitOctet(d);
  }

  lemma Digits()
    ensures LowBits(1) == [true, false, false, false]
    ensures LowBits(2) == [false, true, false, false]
    ensures LowBits(3) == [true, true, false, false]
    ensures LowBits(4) == [false, false, true, false]
    ensures LowBits(5) == [true, false, true, false]
    ensures LowBits(6) == [false, true, true, false]
    ensures LowBits(7) == [true, true, true, false]
    ensures LowBits(8) == [false, false, false, true]
    ensures LowBits(9) == [true, false, false, true]
  {}

  lemma Bits1()
    ensures FeedWord(0xFFFFFFFF, true) == 0x7FFFFFFF
    ensures FeedWord(0x7FFFFFFF, false) == 0xD2477CDF
    ensures FeedWord(0xD2477CDF, false) == 0x849B3D4F
    ensures FeedWord(0x849B3D4F, false) == 0xAFF51D87
    ensures FeedWord(0xAFF51D87, true) == 0x57FA8EC3
    ensures FeedWord(0x57FA8EC3, true) == 0x2BFD4761
    ensures FeedWord(0x2BFD4761, false) == 0xF8462090
    ensures FeedWord(0xF8462090, false) == 0x7C231048
  {}

  lemma Steps1()
    ensures FeedFour(0xFFFFFFFF, true, false, false, false) == 0xAFF51D87
    ensures FeedFour(0xAFF51D87, true, true, false, false) == 0x7C231048
  {
    hide FeedWord;
    Bits1();
  }

  lemma Bits2()
    ensures FeedWord(0x7C231048, false) == 0x3E118824
    ensures FeedWord(0x3E118824, true) == 0xF2B04732
    ensures FeedWord(0xF2B04732, false) == 0x79582399
    ensures FeedWord(0x79582399, false) == 0xD11492EC
    ensures FeedWord(0xD11492EC, true) == 0x8532CA56
    ensures FeedWord(0x8532CA56, true) == 0xAF21E60B
    ensures FeedWord(0xAF21E60B, false) == 0xBA287025
    ensures FeedWord(0xBA287025, false) == 0xB0ACBB32
  {}

  lemma Steps2()
    ensures FeedFour(0x7C231048, false, true, false, false) == 0xD11492EC
    ensures FeedFour(0xD11492EC, true, true, false, false) == 0xB0ACBB32
  {
    hide FeedWord;
    Bits2();
  }

  lemma Bits3()
    ensures FeedWord(0xB0ACBB32, true) == 0xB5EEDEB9
    ensures FeedWord(0xB5EEDEB9, true) == 0x5AF76F5C
    ensures FeedWord(0x5AF76F5C, false) == 0x2D7BB7AE
    ensures FeedWord(0x2D7BB7AE, false) == 0x16BDDBD7
    ensures FeedWord(0x16BDDBD7, true) == 0x0B5EEDEB
    ensures FeedWord(0x0B5EEDEB, true) == 0x05AF76F5
    ensures FeedWord(0x05AF76F5, false) == 0xEF6F385A
    ensures FeedWord(0xEF6F385A, false) == 0x77B79C2D
  {}

  lemma Steps3()
    ensures FeedFour(0xB0ACBB32, true, true, false, false) == 0x16BDDBD7
    ensures FeedFour(0x16BDDBD7, true, true, false, false) == 0x77B79C2D
  {
    hide FeedWord;
    Bits3();
  }

  lemma Bits4()
    ensures FeedWord(0x77B79C2D, false) == 0xD6634D36
    ensures FeedWord(0xD6634D36, false) == 0x6B31A69B
    ensures FeedWord(0x6B31A69B, true) == 0x3598D34D
    ensures FeedWord(0x3598D34D, false) == 0xF774EA86
    ensures FeedWord(0xF774EA86, true) == 0x9602F663
    ensures FeedWord(0x9602F663, true) == 0x4B017B31
    ensures FeedWord(0x4B017B31, false) == 0xC8383EB8
    ensures FeedWord(0xC8383EB8, false) == 0x641C1F5C
  {}

  lemma Steps4()
    ensures FeedFour(0x77B79C2D, false, false, true, false) == 0xF774EA86
    ensures FeedFour(0xF774EA86, true, true, false, false) == 0x641C1F5C
  {
    hide FeedWord;
    Bits4();
  }

  lemma Bits5()
    ensures FeedWord(0x641C1F5C, true) == 0xDFB68C8E
    ensures FeedWord(0xDFB68C8E, false) == 0x6FDB4647
    ensures FeedWord(0x6FDB4647, true) == 0x37EDA323
    ensures FeedWord(0x37EDA323, false) == 0xF64E52B1
    ensures FeedWord(0xF64E52B1, true) == 0x7B272958
    ensures FeedWord(0x7B272958, true) == 0xD02B178C
    ensures FeedWord(0xD02B178C, false) == 0x68158BC6
    ensures FeedWord(0x68158BC6, false) == 0x340AC5E3
  {}

  lemma Steps5()
    ensures FeedFour(0x641C1F5C, true, false, true, false) == 0xF64E52B1
    ensures FeedFour(0xF64E52B1, true, true, false, false) == 0x340AC5E3
  {
    hide FeedWord;
    Bits5();
  }

  lemma Bits6()
    ensures FeedWord(0x340AC5E3, false) == 0xF7BDE1D1
    ensures FeedWord(0xF7BDE1D1, true) == 0x7BDEF0E8
    ensures FeedWord(0x7BDEF0E8, true) == 0xD057FB54
    ensures FeedWord(0xD057FB54, false) == 0x682BFDAA
    ensures FeedWord(0x682BFDAA, true) == 0xD9AD7DF5
    ensures FeedWord(0xD9AD7DF5, true) == 0x6CD6BEFA
    ensures FeedWord(0x6CD6BEFA, false) == 0x366B5F7D
    ensures FeedWord(0x366B5F7D, false) == 0xF68D2C9E
  {}

  lemma Steps6()
    ensures FeedFour(0x340AC5E3, false, true, true, false) == 0x682BFDAA
    ensures FeedFour(0x682BFDAA, true, true, false, false) == 0xF68D2C9E
  {
    hide FeedWord;
    Bits6();
  }

  lemma Bits7()
    ensures FeedWord(0xF68D2C9E, true) == 0x96FE156F
    ensures FeedWord(0x96FE156F, true) == 0x4B7F0AB7
    ensures FeedWord(0x4B7F0AB7, true) == 0x25BF855B
    ensures FeedWord(0x25BF855B, false) == 0xFF67418D
    ensures FeedWord(0xFF67418D, true) == 0x7FB3A0C6
    ensures FeedWord(0x7FB3A0C6, true) == 0xD2615343
    ensures FeedWord(0xD2615343, false) == 0x84882A81
    ensures FeedWord(0x84882A81, false) == 0xAFFC9660
  {}

  lemma Steps7()
    ensures FeedFour(0xF68D2C9E, true, true, true, false) == 0xFF67418D
    ensures FeedFour(0xFF67418D, true, true, false, false) == 0xAFFC9660
  {
    hide FeedWord;
    Bits7();
  }

  lemma Bits8()
    ensures FeedWord(0xAFFC9660, false) == 0x57FE4B30
    ensures FeedWord(0x57FE4B30, false) == 0x2BFF2598
    ensures FeedWord(0x2BFF2598, false) == 0x15FF92CC
    ensures FeedWord(0x15FF92CC, true) == 0xE7474A46
    ensures FeedWord(0xE7474A46, true) == 0x9E1B2603
    ensures FeedWord(0x9E1B2603, true) == 0x4F0D9301
    ensures FeedWord(0x4F0D9301, false) == 0xCA3E4AA0
    ensures FeedWord(0xCA3E4AA0, false) == 0x651F2550
  {}

  lemma Steps8()
    ensures FeedFour(0xAFFC9660, false, false, false, true) == 0xE7474A46
    ensures FeedFour(0xE7474A46, true, true, false, false) == 0x651F2550
  {
    hide FeedWord;
    Bits8();
  }

  lemma Bits9()
    ensures FeedWord(0x651F2550, true) == 0xDF371188
    ensures FeedWord(0xDF371188, false) == 0x6F9B88C4
    ensures FeedWord(0x6F9B88C4, false) == 0x37CDC462
    ensures FeedWord(0x37CDC462, true) == 0xF65E6111
    ensures FeedWord(0xF65E6111, true) == 0x7B2F3088
    ensures FeedWord(0x7B2F3088, true) == 0xD02F1B64
    ensures FeedWord(0xD02F1B64, false) == 0x68178DB2
    ensures FeedWord(0x68178DB2, false) == 0x340BC6D9
  {}

  lemma Steps9()
    ensures FeedFour(0x651F2550, true, false, false, true) == 0xF65E6111
    ensures FeedFour(0xF65E6111, true, true, false, false) == 0x340BC6D9
  {
    hide FeedWord;
    Bits9();
  }

  lemma AfterStep(v: bv32, bytes: Bytes, k: nat)
    requires k < |bytes|
    ensures WordAfter(v, bytes[k..]) == WordAfter(FeedOctet(v, Octet(bytes[k])), bytes[k + 1..])
  {
    hide FeedOctet, Octet;
    assert bytes[k..][1..] == bytes[k + 1..];
  }

  lemma NothingLeft(v: bv32, bytes: Bytes)
    requires bytes == []
    ensures WordAfter(v, bytes) == v
  {}

  const DIGITS: Bytes := [49, 50, 51, 52, 53, 54, 55, 56, 57]

  lemma FirstDigits()
    ensures WordAfter(0xFFFFFFFF, DIGITS[0..]) == WordAfter(0x77B79C2D, DIGITS[3..])
  {
    Digits();
    hide FeedOctet, Octet, WordAfter, LowBits, FeedFour;
    Steps1();
    DigitFeeds(0xFFFFFFFF, 1, LowBits(1), 0xAFF51D87, 0x7C231048);
    AfterStep(0xFFFFFFFF, DIGITS, 0);
    Steps2();
    DigitFeeds(0x7C231048, 2, LowBits(2), 0xD11492EC, 0xB0ACBB32);
    AfterStep(0x7C231048, DIGITS, 1);
    Steps3();
    DigitFeeds(0xB0ACBB32, 3, LowBits(3), 0x16BDDBD7, 0x77B79C2D);
    AfterStep(0xB0ACBB32, DIGITS, 2);
  }

  lemma MiddleDigits()
    ensures WordAfter(0x77B79C2D, DIGITS[3..]) == WordAfter(0xF68D2C9E, DIGITS[6..])
  {
    Digits();
    hide FeedOctet, Octet, WordAfter, LowBits, FeedFour;
    Steps4();
    DigitFeeds(0x77B79C2D, 4, LowBits(4), 0xF774EA86, 0x641C1F5C);
    AfterStep(0x77B79C2D, DIGITS, 3);
    Steps5();
    DigitFeeds(0x641C1F5C, 5, LowBits(5), 0xF64E52B1, 0x340AC5E3);
    AfterStep(0x641C1F5C, DIGITS, 4);
    Steps6();
    DigitFeeds(0x340AC5E3, 6, LowBits(6), 0x682BFDAA, 0xF68D2C9E);
    AfterStep(0x340AC5E3, DIGITS, 5);
  }

  lemma LastDigits()
    ensures WordAfter(0xF68D2C9E, DIGITS[6..]) == WordAfter(0x340BC6D9, DIGITS[9..])
  {
    Digits();
    hide FeedOctet, Octet, WordAfter, LowBits, FeedFour;
    Steps7();
    DigitFeeds(0xF68D2C9E, 7, LowBits(7), 0xFF67418D, 0xAFFC9660);
    AfterStep(0xF68D2C9E, DIGITS, 6);
    Steps8();
    DigitFeeds(0xAFFC9660, 8, LowBits(8), 0xE7474A46, 0x651F2550);
    AfterStep(0xAFFC9660, DIGITS, 7);
    Steps9();
    DigitFeeds(0x651F2550, 9, LowBits(9), 0xF65E6111, 0x340BC6D9);
    AfterStep(0x651F2550, DIGITS, 8);
  }

  /** The check value of CRC-32: the checksum of the nine digits from 1 to 9. */
  lemma CheckValue()
    ensures Crc32([49, 50, 51, 52, 53, 54, 55, 56, 57]) == 0xCBF43926
  {
    hide Crc32, WordAfter, Agree;
    FirstDigits();
    MiddleDigits();
    LastDigits();
    assert DIGITS[0..] == DIGITS;
    NothingLeft(0x340BC6D9, DIGITS[9..]);
    assert Mix(0x340BC6D9, 0xFFFF_FFFF) == 0xCBF43926;
    CheckAgrees();
    ChecksumOfWord(DIGITS, 0xCBF43926, 0xCBF43926);
  }
}
