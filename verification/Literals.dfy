/** Quoted SQL tokens: where the tokenizer ends them, and what the parser decodes
    them to. A backslash is ordinary data inside single quotes and still skips a
    byte inside the other two kinds. */
module Literals {
  import opened Values

  const QUOTE: Byte := 39
  const DOUBLE_QUOTE: Byte := 34
  const BACKTICK: Byte := 96
  const BACKSLASH: Byte := 92

  datatype Kind = IdentifierToken | StringToken
  datatype Token = Token(kind: Kind, lexeme: Bytes, offset: nat, terminated: bool)

  // ---- Scanning -------------------------------------------------------------

  /** From position i inside a quoted token: where it ends, and whether a closing
      quote was found. `skips` says whether a backslash hides the next byte. */
  function Scan(input: Bytes, i: nat, quote: Byte, skips: bool): (r: (nat, bool))
    requires i <= |input|
    ensures i <= r.0 <= |input|
    decreases |input| - i
  {
    if i == |input| then (i, false)
    else if input[i] == BACKSLASH && skips && i + 1 < |input| then Scan(input, i + 2, quote, skips)
    else if input[i] == quote then
      if i + 1 < |input| && input[i + 1] == quote then Scan(input, i + 2, quote, skips) else (i + 1, true)
    else Scan(input, i + 1, quote, skips)
  }

  class Tokenizer {
    const input: Bytes
    var index: nat

    constructor (input: Bytes)
      ensures this.input == input && index == 0
    {
      this.input, this.index := input, 0;
    }

    /** Reads the quoted token that starts at the current position: its exact bytes,
        and explicit evidence of termination. */
    method ReadQuoted(quote: Byte) returns (token: Token)
      requires index < |input| && quote in {QUOTE, DOUBLE_QUOTE, BACKTICK}
      modifies this
      ensures var (end, terminated) := Scan(input, old(index) + 1, quote, quote != QUOTE);
              index == end
              && token == Token(if quote == BACKTICK then IdentifierToken else StringToken,
                                input[old(index)..end], old(index), terminated)
    {
      var start := index;
      var terminated := false;
      index := index + 1;
      while index < |input|
        invariant start < index <= |input| && start == old(index)
        invariant !terminated
        invariant Scan(input, index, quote, quote != QUOTE) == Scan(input, start + 1, quote, quote != QUOTE)
      {
        var c := input[index];
        index := index + 1;
        if c == BACKSLASH && quote != QUOTE && index < |input| {
          index := index + 1;
          continue;
        }
        if c == quote {
          if index < |input| && input[index] == quote {
            index := index + 1;
            continue;
          }
          terminated := true;
          break;
        }
      }
      var kind := if quote == BACKTICK then IdentifierToken else StringToken;
      token := Token(kind, input[start..index], start, terminated);
    }
  }

  // ---- Where a single-quoted literal ends -----------------------------------

  // A maximal run of quotes in the input from `from` on.
  ghost predicate Run(input: Bytes, from: nat, a: nat, b: nat) {
    && from <= a < b <= |input|
    && (forall k :: a <= k < b ==> input[k] == QUOTE)
    && (a == from || input[a - 1] != QUOTE)
    && (b == |input| || input[b] != QUOTE)
  }

  ghost predicate OddRun(input: Bytes, from: nat, a: nat, b: nat) {
    Run(input, from, a, b) && (b - a) % 2 == 1
  }

  // Inside the run that started at a, an even distance in: the run decides.
  lemma {:induction false} ScanRun(input: Bytes, from: nat, a: nat, b: nat, i: nat)
    requires Run(input, from, a, b) && a <= i <= b && (i - a) % 2 == 0
    ensures Scan(input, i, QUOTE, false) == if (b - a) % 2 == 1 then (b, true) else Scan(input, b, QUOTE, false)
    decreases b - i
  {
    if i + 2 <= b {
      assert input[i] == QUOTE && input[i + 1] == QUOTE;
      ScanRun(input, from, a, b, i + 2);
    } else if i < b {
      assert input[i] == QUOTE;
    }
  }

  // Maximal runs that overlap are the same run.
  lemma SameRun(input: Bytes, from: nat, a: nat, b: nat, c: nat, d: nat)
    requires Run(input, from, a, b) && Run(input, from, c, d) && a <= c < b
    ensures c == a && d == b
  {}

  lemma {:induction false} RunFrom(input: Bytes, i: nat, k: nat) returns (b: nat)
    requires i < k <= |input| && forall j :: i <= j < k ==> input[j] == QUOTE
    ensures k <= b <= |input| && (b == |input| || input[b] != QUOTE)
    ensures forall j :: i <= j < b ==> input[j] == QUOTE
    decreases |input| - k
  {
    if k == |input| || input[k] != QUOTE { b := k; } else { b := RunFrom(input, i, k + 1); }
  }

  /** From a position that does not continue a run, the scanner stops at the end of
      the first odd run, and finds no end exactly when there is no odd run. */
  lemma {:induction false} ScanFromBoundary(input: Bytes, from: nat, i: nat)
    requires from <= i <= |input| && (i == from || input[i - 1] != QUOTE)
    ensures var (end, terminated) := Scan(input, i, QUOTE, false);
            if terminated
            then (exists a :: i <= a && OddRun(input, from, a, end))
                 && forall a, b :: i <= a && OddRun(input, from, a, b) ==> end <= b
            else end == |input| && forall a, b :: i <= a ==> !OddRun(input, from, a, b)
    decreases |input| - i
  {
    if i < |input| {
      if input[i] != QUOTE {
        ScanFromBoundary(input, from, i + 1);
        forall a, b | i <= a && OddRun(input, from, a, b) ensures i + 1 <= a {}
      } else {
        var b := RunFrom(input, i, i + 1);
        assert Run(input, from, i, b);
        ScanRun(input, from, i, b, i);
        forall a: nat, c: nat | i <= a < b && Run(input, from, a, c) ensures a == i && c == b {
          SameRun(input, from, i, b, a, c);
        }
        if (b - i) % 2 == 1 {
          assert OddRun(input, from, i, b);
        } else if b < |input| {
          ScanFromBoundary(input, from, b + 1);
          forall a, c | i <= a && OddRun(input, from, a, c) ensures b + 1 <= a {
            assert a != b;
          }
        } else {
          forall a, c | i <= a ensures !OddRun(input, from, a, c) {}
        }
      }
    }
  }

  /** A single-quoted literal ends exactly at the end of the first odd-length maximal
      run of quotes after its opening quote, which stands just before `from`. */
  lemma LiteralEndsAtFirstOddRun(input: Bytes, from: nat)
    requires 0 < from <= |input|
    ensures var (end, terminated) := Scan(input, from, QUOTE, false);
            && (terminated <==> exists a, b :: OddRun(input, from, a, b))
            && (terminated ==> exists a :: OddRun(input, from, a, end))
            && (terminated ==> forall a, b :: OddRun(input, from, a, b) ==> end <= b)
            && (!terminated ==> end == |input|)
  {
    ScanFromBoundary(input, from, from);
  }

  // ---- Encoding and decoding ------------------------------------------------

  function Escaped(s: Bytes): Bytes {
    if s == [] then [] else (if s[0] == QUOTE then [QUOTE, QUOTE] else [s[0]]) + Escaped(s[1..])
  }

  function Quoted(s: Bytes): Bytes { [QUOTE] + Escaped(s) + [QUOTE] }

  function Decoded(interior: Bytes): Bytes
    decreases |interior|
  {
    if interior == [] then []
    else if interior[0] == QUOTE && |interior| > 1 && interior[1] == QUOTE then [QUOTE] + Decoded(interior[2..])
    else [interior[0]] + Decoded(interior[1..])
  }

  // How far one turn of the decode loop reads.
  function Stride(s: Bytes, i: nat): nat
    requires i < |s|
  {
    if s[i] == QUOTE && i + 1 < |s| && s[i + 1] == QUOTE then 2 else 1
  }

  lemma DecodeTurn(s: Bytes, i: nat)
    requires i < |s|
    ensures Decoded(s[i..]) == [s[i]] + Decoded(s[i + Stride(s, i)..])
  {
    var rest := s[i..];
    assert rest[1..] == s[i + 1..];
    if Stride(s, i) == 2 { assert rest[2..] == s[i + 2..]; }
  }

  lemma DecodeNothing()
    ensures Decoded([]) == []
  {}

  lemma Regroup(a: Bytes, b: Byte, c: Bytes)
    ensures a + ([b] + c) == (a + [b]) + c
  {}

  /** The decode loop, into a buffer as long as the interior. */
  method DecodeInterior(interior: Bytes) returns (value: Bytes)
    ensures value == Decoded(interior) && |value| <= |interior|
  {
    hide Decoded;
    var decoded := new Byte[|interior|](_ => 0);
    var source, length := 0, 0;
    ghost var done: Bytes := [];
    assert interior[0..] == interior;
    while source < |interior|
      invariant 0 <= length <= source <= |interior| && decoded[..length] == done
      invariant Decoded(interior) == done + Decoded(interior[source..])
    {
      DecodeTurn(interior, source);
      Regroup(done, interior[source], Decoded(interior[source + Stride(interior, source)..]));
      done := done + [interior[source]];
      decoded[length] := interior[source];
      length := length + 1;
      if interior[source] == QUOTE && source + 1 < |interior| && interior[source + 1] == QUOTE {
        source := source + 2;
      } else {
        source := source + 1;
      }
    }
    DecodeNothing();
    assert interior[source..] == [] && done + [] == done;
    value := decoded[..length];
  }

  /** The value of a string token: none for an unterminated single-quoted one. */
  function LiteralValue(token: Token): Option<Bytes> {
    if |token.lexeme| > 0 && token.lexeme[0] == QUOTE then
      if !token.terminated || |token.lexeme| < 2 then None
      else Some(Decoded(token.lexeme[1..|token.lexeme| - 1]))
    else if |token.lexeme| < 2 then Some(token.lexeme)
    else Some(token.lexeme[1..|token.lexeme| - 1])
  }

  method CloneStringLiteral(token: Token) returns (value: Option<Bytes>)
    requires token.terminated ==> |token.lexeme| >= 2
    ensures value == LiteralValue(token)
  {
    if |token.lexeme| > 0 && token.lexeme[0] == QUOTE {
      if !token.terminated { return None; }
      var decoded := DecodeInterior(token.lexeme[1..|token.lexeme| - 1]);
      return Some(decoded);
    }
    if |token.lexeme| < 2 { return Some(token.lexeme); }
    return Some(token.lexeme[1..|token.lexeme| - 1]);
  }

  /** A token in double quotes or backticks is not decoded: whatever lies between its first
      and its last byte is its value, terminated or not, and a token too short for both is
      its own value. */
  lemma OtherQuotesVerbatim(token: Token)
    requires token.lexeme != [] && token.lexeme[0] != QUOTE
    ensures |token.lexeme| < 2 ==> LiteralValue(token) == Some(token.lexeme)
    ensures |token.lexeme| >= 2 ==>
              exists value: Bytes :: LiteralValue(token) == Some(value)
                && token.lexeme == [token.lexeme[0]] + value + [token.lexeme[|token.lexeme| - 1]]
  {
    if |token.lexeme| >= 2 {
      var value := token.lexeme[1..|token.lexeme| - 1];
      assert token.lexeme == [token.lexeme[0]] + value + [token.lexeme[|token.lexeme| - 1]];
    }
  }

  lemma {:induction false} DecodeUndoesEscape(s: Bytes)
    ensures Decoded(Escaped(s)) == s
  {
    if s != [] {
      var code := Escaped(s);
      DecodeUndoesEscape(s[1..]);
      assert s == [s[0]] + s[1..];
      if s[0] == QUOTE {
        assert code[2..] == Escaped(s[1..]);
      } else {
        assert code[1..] == Escaped(s[1..]);
      }
    }
  }

  // Scanning from inside the escaped text, whatever follows its closing quote.
  lemma {:induction false} ScanEscaped(before: Bytes, s: Bytes, tail: Bytes)
    requires tail == [] || tail[0] != QUOTE
    ensures Scan(before + Escaped(s) + [QUOTE] + tail, |before|, QUOTE, false) == (|before| + |Escaped(s)| + 1, true)
    decreases |s|
  {
    var input := before + Escaped(s) + [QUOTE] + tail;
    if s == [] {
      assert input[|before|] == QUOTE;
      assert tail != [] ==> input[|before| + 1] == tail[0];
    } else {
      var first := if s[0] == QUOTE then [QUOTE, QUOTE] else [s[0]];
      assert input == before + first + Escaped(s[1..]) + [QUOTE] + tail;
      assert input[|before|] == first[0];
      assert s[0] == QUOTE ==> input[|before| + 1] == QUOTE;
      ScanEscaped(before + first, s[1..], tail);
    }
  }

  lemma QuotedScan(before: Bytes, s: Bytes, tail: Bytes)
    requires tail == [] || tail[0] != QUOTE
    ensures Scan(before + Quoted(s) + tail, |before| + 1, QUOTE, false) == (|before| + |Quoted(s)|, true)
  {
    hide Scan, Escaped;
    assert before + Quoted(s) + tail == before + [QUOTE] + Escaped(s) + [QUOTE] + tail;
    ScanEscaped(before + [QUOTE], s, tail);
  }

  lemma QuotedValue(s: Bytes, offset: nat)
    ensures LiteralValue(Token(StringToken, Quoted(s), offset, true)) == Some(s)
  {
    hide Escaped, Decoded;
    assert Quoted(s)[1..|Quoted(s)| - 1] == Escaped(s);
    DecodeUndoesEscape(s);
  }

  lemma Middle(a: Bytes, b: Bytes, c: Bytes)
    ensures (a + b + c)[|a|..|a| + |b|] == b
  {}

  /** Any text, quoted with its quotes doubled, is scanned back to exactly its closing
      quote and decodes to itself, wherever it stands and whatever follows it short
      of another quote. */
  lemma QuotedTextReadsBack(before: Bytes, s: Bytes, tail: Bytes)
    requires tail == [] || tail[0] != QUOTE
    ensures var input := before + Quoted(s) + tail;
            var (end, terminated) := Scan(input, |before| + 1, QUOTE, false);
            && terminated && input[|before|..end] == Quoted(s)
            && LiteralValue(Token(StringToken, input[|before|..end], |before|, terminated)) == Some(s)
  {
    hide Scan, Quoted, LiteralValue;
    QuotedScan(before, s, tail);
    QuotedValue(s, |before|);
    Middle(before, Quoted(s), tail);
  }

  /** A single-quoted token has a value exactly when it is terminated. */
  lemma ValueExactlyWhenTerminated(input: Bytes, start: nat)
    requires start < |input| && input[start] == QUOTE
    ensures var (end, terminated) := Scan(input, start + 1, QUOTE, false);
            LiteralValue(Token(StringToken, input[start..end], start, terminated)).Some? <==> terminated
  {
    var (end, terminated) := Scan(input, start + 1, QUOTE, false);
    if terminated { EscapeUndoesDecode(input, start + 1); }
    hide Scan, Decoded;
    assert input[start..end][0] == QUOTE;
  }

  // The interior of a terminated literal is the escaped form of its decoding.
  lemma {:induction false} EscapeUndoesDecode(input: Bytes, i: nat)
    requires i <= |input| && Scan(input, i, QUOTE, false).1
    ensures var end := Scan(input, i, QUOTE, false).0;
            i < end && input[end - 1] == QUOTE && Escaped(Decoded(input[i..end - 1])) == input[i..end - 1]
    decreases |input| - i
  {
    var end := Scan(input, i, QUOTE, false).0;
    hide Escaped;
    assert Escaped([]) == [] by { EscapeNothing(); }
    if input[i] == QUOTE && i + 1 < |input| && input[i + 1] == QUOTE {
      EscapeUndoesDecode(input, i + 2);
      var interior := input[i..end - 1];
      assert interior[0] == QUOTE && interior[1] == QUOTE && interior[2..] == input[i + 2..end - 1];
      EscapeCons(QUOTE, Decoded(interior[2..]));
    } else if input[i] != QUOTE {
      EscapeUndoesDecode(input, i + 1);
      var interior := input[i..end - 1];
      assert interior[0] == input[i] && interior[1..] == input[i + 1..end - 1];
      EscapeCons(input[i], Decoded(interior[1..]));
    } else {
      assert input[i..end - 1] == [];
    }
  }

  lemma EscapeNothing()
    ensures Escaped([]) == []
  {}

  lemma EscapeCons(b: Byte, s: Bytes)
    ensures Escaped([b] + s) == (if b == QUOTE then [QUOTE, QUOTE] else [b]) + Escaped(s)
  {
    assert ([b] + s)[1..] == s;
  }

  lemma Framed(input: Bytes, start: nat, end: nat)
    requires start + 1 < end <= |input| && input[start] == QUOTE && input[end - 1] == QUOTE
    ensures input[start..end] == [QUOTE] + input[start + 1..end - 1] + [QUOTE]
    ensures input[start..end][1..end - start - 1] == input[start + 1..end - 1]
  {}

  /** Conversely, quoting the value of any terminated single-quoted lexeme gives that
      lexeme back, byte for byte. */
  lemma LexemeReadsBack(input: Bytes, start: nat)
    requires start < |input| && input[start] == QUOTE && Scan(input, start + 1, QUOTE, false).1
    ensures var (end, terminated) := Scan(input, start + 1, QUOTE, false);
            var value := LiteralValue(Token(StringToken, input[start..end], start, terminated));
            value.Some? && Quoted(value.value) == input[start..end]
  {
    hide Scan, Escaped, Decoded;
    var end := Scan(input, start + 1, QUOTE, false).0;
    EscapeUndoesDecode(input, start + 1);
    Framed(input, start, end);
  }

  /** One more quote right behind a terminated literal makes it unterminated, although
      the input still ends in a quote: the last byte is no evidence of termination. */
  lemma OneMoreQuoteUnterminates(s: Bytes)
    ensures Scan(Quoted(s), 1, QUOTE, false) == (|Quoted(s)|, true)
    ensures Scan(Quoted(s) + [QUOTE], 1, QUOTE, false) == (|Quoted(s)| + 1, false)
  {
    assert [QUOTE] + Escaped(s) + [QUOTE] + [] == Quoted(s);
    ScanEscaped([QUOTE], s, []);
    ScanOpen([QUOTE], s);
    assert Quoted(s) + [QUOTE] == [QUOTE] + Escaped(s) + [QUOTE, QUOTE];
  }

  lemma {:induction false} ScanOpen(before: Bytes, s: Bytes)
    ensures var input := before + Escaped(s) + [QUOTE, QUOTE];
            Scan(input, |before|, QUOTE, false) == (|input|, false)
    decreases |s|
  {
    var input := before + Escaped(s) + [QUOTE, QUOTE];
    if s == [] {
      assert input[|before|] == QUOTE && input[|before| + 1] == QUOTE;
    } else {
      var first := if s[0] == QUOTE then [QUOTE, QUOTE] else [s[0]];
      assert input == before + first + Escaped(s[1..]) + [QUOTE, QUOTE];
      assert input[|before|] == first[0];
      assert s[0] == QUOTE ==> input[|before| + 1] == QUOTE;
      ScanOpen(before + first, s[1..]);
    }
  }

  // ---- Against the scanner that skipped after every backslash ----------------

  // A maximal run of backslashes from `from` on, directly followed by a quote.
  ghost predicate Escapes(input: Bytes, from: nat, a: nat, b: nat) {
    && from <= a < b < |input| && input[b] == QUOTE
    && (forall k :: a <= k < b ==> input[k] == BACKSLASH)
    && (a == from || input[a - 1] != BACKSLASH)
  }

  /** Before the scanner's end every quote follows an even number of backslashes. */
  ghost predicate EvenlyEscaped(input: Bytes, from: nat, i: nat, end: nat) {
    forall a: nat, b: nat :: i <= a && Escapes(input, from, a, b) && b < end ==> (b - a) % 2 == 0
  }

  lemma {:induction false} ScanMoves(input: Bytes, i: nat, skips: bool)
    requires i < |input|
    ensures i < Scan(input, i, QUOTE, skips).0
    decreases |input| - i
  {}

  // A quote that one scanner steps over and the other reads: they never meet again.
  lemma {:induction false} NeverMeet(input: Bytes, p: nat)
    requires p < |input| && input[p] == QUOTE
    ensures Scan(input, p + 1, QUOTE, true) != Scan(input, p, QUOTE, false)
    decreases |input| - p
  {
    if p + 1 < |input| && input[p + 1] == QUOTE {
      if p + 2 < |input| {
        if input[p + 2] == QUOTE { NeverMeet(input, p + 2); } else { ScanMoves(input, p + 2, false); }
      }
    } else if p + 1 < |input| {
      ScanMoves(input, p + 1, true);
    }
  }

  lemma {:induction false} BackslashesFrom(input: Bytes, i: nat, k: nat) returns (b: nat)
    requires i < k <= |input| && forall j :: i <= j < k ==> input[j] == BACKSLASH
    ensures k <= b <= |input| && (b == |input| || input[b] != BACKSLASH)
    ensures forall j :: i <= j < b ==> input[j] == BACKSLASH
    decreases |input| - k
  {
    if k == |input| || input[k] != BACKSLASH { b := k; } else { b := BackslashesFrom(input, i, k + 1); }
  }

  // Over a run of backslashes: one scanner reads them as they are, the other two by two.
  lemma {:induction false} ScanBackslashes(input: Bytes, i: nat, b: nat)
    requires i <= b <= |input| && forall j :: i <= j < b ==> input[j] == BACKSLASH
    ensures Scan(input, i, QUOTE, false) == Scan(input, b, QUOTE, false)
    ensures Scan(input, i, QUOTE, true) ==
            Scan(input, if (b - i) % 2 == 0 || b == |input| then b else b + 1, QUOTE, true)
    decreases b - i
  {
    if i + 2 <= b {
      assert input[i] == BACKSLASH && input[i + 1] == BACKSLASH;
      assert Scan(input, i + 1, QUOTE, false) == Scan(input, i + 2, QUOTE, false);
      ScanBackslashes(input, i + 2, b);
    } else if i < b {
      assert input[i] == BACKSLASH;
    }
  }

  // A position at which no run of backslashes is being continued.
  predicate Between(input: Bytes, from: nat, i: nat)
    requires from <= i <= |input|
  {
    i == from || input[i - 1] != BACKSLASH || i == |input| || input[i] != BACKSLASH
  }

  lemma {:induction false} AgreeFrom(input: Bytes, from: nat, i: nat)
    requires from <= i <= |input| && Between(input, from, i)
    ensures Scan(input, i, QUOTE, true) == Scan(input, i, QUOTE, false) <==>
            EvenlyEscaped(input, from, i, Scan(input, i, QUOTE, false).0)
    decreases |input| - i
  {
    if i < |input| {
      if input[i] == BACKSLASH {
        var b := BackslashesFrom(input, i, i + 1);
        AgreeOverBackslashes(input, from, i, b);
      } else if input[i] != QUOTE {
        AgreeFrom(input, from, i + 1);
        NoneStart(input, from, i, i + 1, Scan(input, i, QUOTE, false).0);
      } else if i + 1 < |input| && input[i + 1] == QUOTE {
        AgreeFrom(input, from, i + 2);
        NoneStart(input, from, i, i + 2, Scan(input, i, QUOTE, false).0);
      }
    }
  }

  // Where no run starts, there is nothing to ask.
  lemma NoneStart(input: Bytes, from: nat, i: nat, j: nat, end: nat)
    requires from <= i <= j <= |input| && forall k :: i <= k < j ==> input[k] != BACKSLASH
    ensures EvenlyEscaped(input, from, i, end) <==> EvenlyEscaped(input, from, j, end)
  {
    forall a, b | i <= a && Escapes(input, from, a, b) ensures j <= a { assert input[a] == BACKSLASH; }
  }

  lemma {:induction false} AgreeOverBackslashes(input: Bytes, from: nat, i: nat, b: nat)
    requires from <= i < b <= |input| && Between(input, from, i)
    requires (forall j :: i <= j < b ==> input[j] == BACKSLASH) && (b == |input| || input[b] != BACKSLASH)
    ensures Scan(input, i, QUOTE, true) == Scan(input, i, QUOTE, false) <==>
            EvenlyEscaped(input, from, i, Scan(input, i, QUOTE, false).0)
    decreases |input| - i, 0
  {
    var end := Scan(input, i, QUOTE, false).0;
    ScanBackslashes(input, i, b);
    OnlyThisRun(input, from, i, b, end);
    if b < |input| && (b - i) % 2 == 1 {
      if input[b] == QUOTE {
        NeverMeet(input, b);
        ScanMoves(input, b, false);
      } else {
        AgreeFrom(input, from, b + 1);
        NoneStart(input, from, b, b + 1, end);
      }
    } else {
      AgreeFrom(input, from, b);
    }
  }

  // The runs from i on are the one that starts there, if a quote follows it, and those
  // from its end on.
  lemma OnlyThisRun(input: Bytes, from: nat, i: nat, b: nat, end: nat)
    requires from <= i < b <= |input| && Between(input, from, i)
    requires (forall j :: i <= j < b ==> input[j] == BACKSLASH) && (b == |input| || input[b] != BACKSLASH)
    ensures EvenlyEscaped(input, from, i, end) <==>
            EvenlyEscaped(input, from, b, end)
            && (b < |input| && input[b] == QUOTE && b < end ==> (b - i) % 2 == 0)
  {
    forall a: nat, c: nat | i <= a < b && Escapes(input, from, a, c) ensures a == i && c == b {
      assert c <= b ==> input[c] == QUOTE;
    }
    assert b < |input| && input[b] == QUOTE ==> Escapes(input, from, i, b);
  }

  /** The scanner that skipped the byte after every backslash finds the same end and the
      same termination if and only if every quote of the lexeme follows an even number of
      backslashes. */
  lemma BaselineAgreesExactly(input: Bytes, from: nat)
    requires from <= |input|
    ensures Scan(input, from, QUOTE, true) == Scan(input, from, QUOTE, false) <==>
            EvenlyEscaped(input, from, from, Scan(input, from, QUOTE, false).0)
  {
    AgreeFrom(input, from, from);
  }

  // With a backslash before the closing quote the two scanners part.
  lemma BaselineParts()
    ensures var input := [QUOTE, BACKSLASH, QUOTE];
            Scan(input, 1, QUOTE, false) == (3, true) && Scan(input, 1, QUOTE, true) == (3, false)
  {
    var input := [QUOTE, BACKSLASH, QUOTE];
    assert Scan(input, 2, QUOTE, false) == (3, true);
    assert Scan(input, 3, QUOTE, true) == (3, false);
  }
}
