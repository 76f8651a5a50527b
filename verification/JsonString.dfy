/**
  JsonString of plugin/src/utf8.cpp: any byte string becomes a JSON string token. A decoder written
  from section 7 of RFC 8259 reads the token back.
 */
module JsonString {
  import opened Options
  import opened Utf8

  const QUOTE: Byte := 0x22
  const BACKSLASH: Byte := 0x5C
  const REPLACEMENT: seq<Byte> := [0xEF, 0xBF, 0xBD]

  function HexDigit(n: nat): Byte
    requires n < 16
  {
    if n < 10 then 0x30 + n else 0x61 + (n - 10)
  }

  /** What is appended for one ASCII byte. */
  function AsciiEscape(b: Byte): seq<Byte>
    requires b <= 0x7F
  {
    if b == QUOTE || b == BACKSLASH then [BACKSLASH, b]
    else if b == 0x08 then [BACKSLASH, 0x62]
    else if b == 0x0C then [BACKSLASH, 0x66]
    else if b == 0x0A then [BACKSLASH, 0x6E]
    else if b == 0x0D then [BACKSLASH, 0x72]
    else if b == 0x09 then [BACKSLASH, 0x74]
    else if b < 0x20 then [BACKSLASH, 0x75, 0x30, 0x30, HexDigit(b / 16), HexDigit(b % 16)]
    else [b]
  }

  // How many bytes the encoder takes at once, and what it writes for them.
  function Taken(s: seq<Byte>): (n: nat)
    requires s != []
    ensures 0 < n <= |s|
  {
    if First(s) == 0 then 1 else First(s)
  }

  function Piece(s: seq<Byte>): seq<Byte>
    requires s != []
  {
    if s[0] <= 0x7F then AsciiEscape(s[0])
    else if First(s) == 0 then REPLACEMENT
    else s[..First(s)]
  }

  function Body(s: seq<Byte>): seq<Byte> {
    if s == [] then [] else Piece(s) + Body(s[Taken(s)..])
  }

  function Token(s: seq<Byte>): seq<Byte> {
    [QUOTE] + Body(s) + [QUOTE]
  }

  method Encode(value: seq<Byte>) returns (result: seq<Byte>)
    ensures result == Token(value)
  {
    hide Piece, Taken, First, AsciiEscape, ValidSequenceLength;
    result := [QUOTE];
    var offset := 0;
    while offset < |value|
      invariant offset <= |value|
      invariant result + Body(value[offset..]) == [QUOTE] + Body(value)
    {
      EncodeStep(value, offset, result);
      var byte := value[offset];
      if byte <= 0x7F {
        result := result + AsciiEscape(byte);
        offset := offset + 1;
        continue;
      }
      var sequenceLength := ValidSequenceLength(value, offset);
      if sequenceLength == 0 {
        result := result + REPLACEMENT;
        offset := offset + 1;
        continue;
      }
      result := result + value[offset..offset + sequenceLength];
      offset := offset + sequenceLength;
    }
    assert value[offset..] == [];
    result := result + [QUOTE];
  }

  // What each branch of the encoder's loop appends.
  lemma EncodeStep(value: seq<Byte>, offset: nat, written: seq<Byte>)
    requires offset < |value|
    ensures var n := ValidSequenceLength(value, offset);
            var length := if value[offset] <= 0x7F || n == 0 then 1 else n;
            var piece := if value[offset] <= 0x7F then AsciiEscape(value[offset])
                         else if n == 0 then REPLACEMENT
                         else value[offset..offset + n];
            offset + length <= |value| &&
            written + Body(value[offset..]) == written + piece + Body(value[offset + length..])
  {
    hide AsciiEscape, ValidSequenceLength, First, Piece, Taken;
    var rest := value[offset..];
    PieceAt(value, offset);
    assert rest[Taken(rest)..] == value[offset + Taken(rest)..];
    assert Body(rest) == Piece(rest) + Body(rest[Taken(rest)..]);
  }

  lemma PieceAt(value: seq<Byte>, offset: nat)
    requires offset < |value|
    ensures var n := ValidSequenceLength(value, offset);
            var rest := value[offset..];
            Taken(rest) == (if value[offset] <= 0x7F || n == 0 then 1 else n) &&
            Piece(rest) == if value[offset] <= 0x7F then AsciiEscape(value[offset])
                           else if n == 0 then REPLACEMENT
                           else value[offset..offset + n]
  {
    hide AsciiEscape, ValidSequenceLength;
    var rest := value[offset..];
    AtOffset(value, offset);
    AsciiIsOne(rest);
    assert rest[..First(rest)] == value[offset..offset + First(rest)];
  }

  lemma AsciiIsOne(s: seq<Byte>)
    requires s != []
    ensures s[0] <= 0x7F ==> First(s) == 1
  {
  }

  // ---- The decoder of RFC 8259 -----------------------------------------------------------------

  function HexValue(b: Byte): (r: Option<nat>)
    ensures r.Some? ==> r.value < 16
  {
    if 0x30 <= b <= 0x39 then Some(b - 0x30)
    else if 0x61 <= b <= 0x66 then Some(b - 0x61 + 10)
    else if 0x41 <= b <= 0x46 then Some(b - 0x41 + 10)
    else None
  }

  /** The code unit of a `\uXXXX` escape at the front. */
  function CodeUnit(s: seq<Byte>): (r: Option<nat>)
    ensures r.Some? ==> r.value < 0x10000 && |s| >= 6
  {
    if |s| >= 6 && s[0] == BACKSLASH && s[1] == 0x75 &&
       HexValue(s[2]).Some? && HexValue(s[3]).Some? && HexValue(s[4]).Some? && HexValue(s[5]).Some?
    then Some(((HexValue(s[2]).value * 16 + HexValue(s[3]).value) * 16 +
               HexValue(s[4]).value) * 16 + HexValue(s[5]).value)
    else None
  }

  datatype Read = Fail | Char(text: seq<Byte>, length: nat)

  /** One character of a JSON string: the bytes it stands for and the bytes it occupies. */
  function ReadEscape(s: seq<Byte>): (r: Read)
    requires s != []
    ensures r.Char? ==> 0 < r.length <= |s|
  {
    if |s| < 2 then Fail
    else if s[1] == QUOTE || s[1] == BACKSLASH || s[1] == 0x2F then Char([s[1]], 2)
    else if s[1] == 0x62 then Char([0x08], 2)
    else if s[1] == 0x66 then Char([0x0C], 2)
    else if s[1] == 0x6E then Char([0x0A], 2)
    else if s[1] == 0x72 then Char([0x0D], 2)
    else if s[1] == 0x74 then Char([0x09], 2)
    else if CodeUnit(s).None? then Fail
    else
      var unit := CodeUnit(s).value;
      if Scalar(unit) then Char(Utf8.Encode(unit), 6)
      else if unit < 0xDC00 && CodeUnit(s[6..]).Some? && 0xDC00 <= CodeUnit(s[6..]).value < 0xE000
      then
        var low := CodeUnit(s[6..]).value;
        Char(Utf8.Encode(0x10000 + (unit - 0xD800) * 1024 + (low - 0xDC00)), 12)
      else Fail
  }

  function ReadChar(s: seq<Byte>): (r: Read)
    requires s != []
    ensures r.Char? ==> 0 < r.length <= |s|
  {
    if s[0] == BACKSLASH then ReadEscape(s)
    else if s[0] < 0x20 || First(s) == 0 then Fail
    else Char(s[..First(s)], First(s))
  }

  /** Characters up to a closing quote that must end the input. */
  function ParseBody(s: seq<Byte>): Option<seq<Byte>> {
    if s == [] then None
    else if s[0] == QUOTE then if |s| == 1 then Some([]) else None
    else
      var read := ReadChar(s);
      if read.Fail? then None
      else
        var rest := ParseBody(s[read.length..]);
        if rest.None? then None else Some(read.text + rest.value)
  }

  function Parse(token: seq<Byte>): Option<seq<Byte>> {
    if token == [] || token[0] != QUOTE then None else ParseBody(token[1..])
  }

  // ---- Round trip ------------------------------------------------------------------------------

  /** Each byte that starts no valid sequence replaced by U+FFFD. */
  function Sanitized(s: seq<Byte>): seq<Byte> {
    if s == [] then []
    else if First(s) == 0 then REPLACEMENT + Sanitized(s[1..])
    else s[..First(s)] + Sanitized(s[First(s)..])
  }

  // The encoder writes one readable character at a time, whatever follows it.
  lemma PieceReadsBack(s: seq<Byte>, tail: seq<Byte>)
    requires s != []
    ensures var piece := Piece(s);
            0 < |piece| <= 6 * Taken(s) && piece[0] != QUOTE &&
            ReadChar(piece + tail) ==
            Char(if First(s) == 0 then REPLACEMENT else s[..First(s)], |piece|)
  {
    AsciiIsOne(s);
    var piece := Piece(s);
    if s[0] <= 0x7F {
      assert s[..1] == [s[0]];
      AsciiReadsBack(s[0], tail);
    } else if First(s) == 0 {
      assert First(REPLACEMENT + tail) == 3;
    } else {
      FirstExtends(piece, tail) by { OneCharacter(s); }
      OneCharacter(s);
    }
  }

  lemma AsciiReadsBack(b: Byte, tail: seq<Byte>)
    requires b <= 0x7F
    ensures var piece := AsciiEscape(b);
            0 < |piece| <= 6 && piece[0] != QUOTE && ReadChar(piece + tail) == Char([b], |piece|)
  {
    var piece := AsciiEscape(b);
    if |piece| == 6 {
      var s := piece + tail;
      assert s[1] == 0x75 && s[2] == s[3] == 0x30;
      assert HexValue(s[4]) == Some(b / 16) && HexValue(s[5]) == Some(b % 16);
      assert CodeUnit(s) == Some(b);
    }
  }

  lemma {:induction false} BodyReadsBack(s: seq<Byte>)
    ensures ParseBody(Body(s) + [QUOTE]) == Some(Sanitized(s))
  {
    hide ValidSequenceLength, First, Piece, AsciiEscape, ReadEscape, ReadChar;
    if s != [] {
      var rest := s[Taken(s)..];
      BodyReadsBack(rest);
      PieceReadsBack(s, Body(rest) + [QUOTE]);
      var all := Piece(s) + (Body(rest) + [QUOTE]);
      assert Body(s) + [QUOTE] == all;
      assert all[|Piece(s)|..] == Body(rest) + [QUOTE];
    }
  }

  /** Reading the token back gives the input with undecodable bytes replaced. */
  lemma RoundTrip(s: seq<Byte>)
    ensures Parse(Token(s)) == Some(Sanitized(s))
  {
    hide Body, Sanitized, ParseBody;
    BodyReadsBack(s);
    assert Token(s)[1..] == Body(s) + [QUOTE];
  }

  lemma {:induction false} SanitizedIsValid(s: seq<Byte>)
    ensures Valid(Sanitized(s))
    ensures Valid(s) ==> Sanitized(s) == s
  {
    hide Valid, First;
    ValidUnfolds(s);
    if s != [] {
      var n := First(s);
      if n == 0 {
        SanitizedIsValid(s[1..]);
        ReplacementIsValid();
        ValidConcat(REPLACEMENT, Sanitized(s[1..]));
      } else {
        SanitizedIsValid(s[n..]);
        OneCharacter(s);
        ValidConcat(s[..n], Sanitized(s[n..]));
        assert s == s[..n] + s[n..];
      }
    }
  }

  lemma ReplacementIsValid()
    ensures Valid(REPLACEMENT)
  {
    assert First(REPLACEMENT) == 3;
    assert REPLACEMENT[3..] == [];
  }

  /** So the round trip is the identity exactly on valid UTF-8. */
  lemma RoundTripIsIdentityExactlyOnUtf8(s: seq<Byte>)
    ensures Parse(Token(s)) == Some(s) <==> Valid(s)
  {
    RoundTrip(s);
    SanitizedIsValid(s);
  }

  lemma {:induction false} BodyIsValid(s: seq<Byte>)
    ensures Valid(Body(s)) && |Body(s)| <= 6 * |s|
  {
    hide ValidSequenceLength, First, Taken, Piece, AsciiEscape;
    if s != [] {
      var rest := s[Taken(s)..];
      BodyIsValid(rest);
      PieceIsValid(s);
      ValidConcat(Piece(s), Body(rest));
    }
  }

  lemma {:induction false} AsciiIsValid(s: seq<Byte>)
    requires forall b | b in s :: b <= 0x7F
    ensures Valid(s)
  {
    if s != [] {
      assert s[0] in s && forall b | b in s[1..] :: b in s;
      AsciiIsValid(s[1..]);
    }
  }

  lemma PieceIsValid(s: seq<Byte>)
    requires s != []
    ensures Valid(Piece(s)) && |Piece(s)| <= 6 * Taken(s)
  {
    AsciiIsOne(s);
    if s[0] <= 0x7F {
      AsciiIsValid(Piece(s));
    } else if First(s) == 0 {
      ReplacementIsValid();
    } else {
      OneCharacter(s);
    }
  }

  /** The token itself is valid UTF-8 and at most six times as long, plus its quotes. */
  lemma TokenIsValid(s: seq<Byte>)
    ensures Valid(Token(s)) && |Token(s)| <= 6 * |s| + 2
  {
    BodyIsValid(s);
    AsciiIsValid([QUOTE]);
    ValidConcat([QUOTE], Body(s));
    ValidConcat([QUOTE] + Body(s), [QUOTE]);
  }

  // ---- No shorter token ------------------------------------------------------------------------

  /** Of all the ways to write one ASCII character, a quote aside, none is shorter. */
  lemma EscapeIsShortest(b: Byte, t: seq<Byte>)
    requires b <= 0x7F && t != [] && t[0] != QUOTE
    requires ReadChar(t).Char? && ReadChar(t).text == [b]
    ensures |AsciiEscape(b)| <= ReadChar(t).length
  {
    if t[0] == BACKSLASH && CodeUnit(t).Some? {
      var unit := CodeUnit(t).value;
      if Scalar(unit) {
        assert |Utf8.Encode(unit)| == 1 ==> unit < 0x80;
      }
    }
  }

  // What is read is one character of the text.
  lemma ReadsOneCharacter(t: seq<Byte>)
    requires t != [] && ReadChar(t).Char?
    ensures var read := ReadChar(t);
            First(read.text) == |read.text| > 0 && (|read.text| > 1 ==> |read.text| <= read.length)
  {
    if t[0] != BACKSLASH {
      OneCharacter(t);
    } else if |t| >= 2 && CodeUnit(t).Some? {
      var unit := CodeUnit(t).value;
      if Scalar(unit) {
        EncodedIsOne(unit);
      } else if unit < 0xDC00 && CodeUnit(t[6..]).Some? &&
                0xDC00 <= CodeUnit(t[6..]).value < 0xE000 {
        EncodedIsOne(0x10000 + (unit - 0xD800) * 1024 + (CodeUnit(t[6..]).value - 0xDC00));
      }
    }
  }

  lemma EncodedIsOne(c: nat)
    requires Scalar(c)
    ensures First(Utf8.Encode(c)) == |Utf8.Encode(c)|
  {
    EncodingIsFirst(c, []);
    assert Utf8.Encode(c) + [] == Utf8.Encode(c);
  }

  // Replacing twice is replacing once, and what was replaced is written as it is.
  lemma {:induction false} SanitizedIsWritten(s: seq<Byte>)
    ensures Body(Sanitized(s)) == Body(s)
  {
    hide First, Piece, Taken, AsciiEscape;
    if s != [] {
      if First(s) == 0 {
        SanitizedIsWritten(s[1..]);
        ReplacementIsOne();
        PieceOfPrefix(REPLACEMENT, Sanitized(s[1..]));
        PieceOfBroken(s);
      } else {
        SanitizedIsWritten(s[First(s)..]);
        OneCharacter(s);
        PieceOfPrefix(s[..First(s)], Sanitized(s[First(s)..]));
        PieceOfPrefix(s[..First(s)], s[First(s)..]);
        assert s[..First(s)] + s[First(s)..] == s;
      }
    }
  }

  lemma ReplacementIsOne()
    ensures First(REPLACEMENT) == 3 && Piece(REPLACEMENT) == REPLACEMENT
  {}

  lemma PieceOfBroken(s: seq<Byte>)
    requires s != [] && First(s) == 0
    ensures Piece(s) == REPLACEMENT && Taken(s) == 1
  {
    AsciiIsOne(s);
    hide First;
  }

  // One character is written the same whatever follows it.
  lemma PieceOfPrefix(c: seq<Byte>, rest: seq<Byte>)
    requires First(c) == |c| > 0
    ensures Piece(c + rest) == Piece(c) && Taken(c + rest) == |c|
    ensures Body(c + rest) == Piece(c) + Body(rest)
  {
    FirstExtends(c, rest);
    assert (c + rest)[..|c|] == c && c[..|c|] == c && (c + rest)[|c|..] == rest;
    hide First, AsciiEscape;
  }

  /** A string that reads as some text is no shorter than what the encoder writes for it. */
  lemma {:induction false} BodyIsShortest(t: seq<Byte>, v: seq<Byte>)
    requires ParseBody(t) == Some(v)
    ensures |Body(v)| + 1 <= |t|
  {
    hide First, Piece, Taken, AsciiEscape, ReadChar;
    if t[0] != QUOTE {
      var read := ReadChar(t);
      var rest := ParseBody(t[read.length..]).value;
      BodyIsShortest(t[read.length..], rest);
      ReadsOneCharacter(t);
      PieceOfPrefix(read.text, rest);
      PieceIsShortest(t);
    }
  }

  lemma PieceIsShortest(t: seq<Byte>)
    requires t != [] && t[0] != QUOTE && ReadChar(t).Char?
    ensures ReadChar(t).text != [] && |Piece(ReadChar(t).text)| <= ReadChar(t).length
  {
    ReadsOneCharacter(t);
    var text := ReadChar(t).text;
    if text[0] <= 0x7F {
      AsciiIsOne(text);
      assert text == [text[0]];
      EscapeIsShortest(text[0], t);
    } else {
      LongerThanAscii(text);
    }
    hide ReadChar, AsciiEscape;
  }

  lemma LongerThanAscii(c: seq<Byte>)
    requires First(c) == |c| > 0 && c[0] > 0x7F
    ensures |c| > 1 && Piece(c) == c
  {
    assert c[..|c|] == c;
  }

  /** No JSON string with the same meaning is shorter than the token. */
  lemma TokenIsShortest(s: seq<Byte>, t: seq<Byte>)
    requires Parse(t) == Some(Sanitized(s))
    ensures |Token(s)| <= |t|
  {
    hide Body, Sanitized, ParseBody;
    BodyIsShortest(t[1..], Sanitized(s));
    SanitizedIsWritten(s);
  }

  /** Replaced bytes read as U+FFFD, and numeric escapes are written in lower case. */
  lemma ReplacementAndDigits(b: Byte)
    ensures REPLACEMENT == Utf8.Encode(0xFFFD)
    ensures b <= 0x7F && |AsciiEscape(b)| == 6 ==>
              AsciiEscape(b)[..4] == [BACKSLASH, 0x75, 0x30, 0x30] &&
              AsciiEscape(b)[4] == "0123456789abcdef"[b / 16] as int &&
              AsciiEscape(b)[5] == "0123456789abcdef"[b % 16] as int
  {}
}
