/**
  UTF-8 as plugin/src/utf8.cpp recognises it, compared with an independent reference: the byte
  sequences that encode Unicode scalar values (section 3 and 4 of RFC 3629). The greedy decoder of
  the audit reader uses the same recogniser.
 */
module Utf8 {

  type Byte = b: nat | b < 256

  predicate IsContinuation(b: Byte) {
    0x80 <= b < 0xC0
  }

  predicate ThreeByteStart(first: Byte, second: Byte) {
    || (first == 0xE0 && 0xA0 <= second <= 0xBF)
    || (0xE1 <= first <= 0xEC && IsContinuation(second))
    || (first == 0xED && 0x80 <= second <= 0x9F)
    || (0xEE <= first <= 0xEF && IsContinuation(second))
  }

  predicate FourByteStart(first: Byte, second: Byte) {
    || (first == 0xF0 && 0x90 <= second <= 0xBF)
    || (0xF1 <= first <= 0xF3 && IsContinuation(second))
    || (first == 0xF4 && 0x80 <= second <= 0x8F)
  }

  /** Length of the valid sequence at `offset`, or zero when none starts there. */
  function ValidSequenceLength(value: seq<Byte>, offset: nat): (n: nat)
    requires offset < |value|
    ensures n <= 4 && offset + n <= |value|
    ensures n > 0 ==> !IsContinuation(value[offset])
    ensures forall k | offset < k < offset + n :: IsContinuation(value[k])
  {
    var first, remaining := value[offset], |value| - offset;
    if first <= 0x7F then 1
    else if 0xC2 <= first <= 0xDF && remaining >= 2 && IsContinuation(value[offset + 1]) then 2
    else if remaining >= 3 && ThreeByteStart(first, value[offset + 1]) &&
            IsContinuation(value[offset + 2]) then 3
    else if remaining >= 4 && FourByteStart(first, value[offset + 1]) &&
            IsContinuation(value[offset + 2]) && IsContinuation(value[offset + 3]) then 4
    else 0
  }

  function First(s: seq<Byte>): (n: nat)
    ensures n <= |s| && n <= 4
    ensures n > 0 ==> !IsContinuation(s[0])
    ensures forall k | 0 < k < n :: IsContinuation(s[k])
  {
    if s == [] then 0 else ValidSequenceLength(s, 0)
  }

  /** The whole sequence is read by valid sequences. */
  predicate Valid(s: seq<Byte>) {
    s == [] || (First(s) > 0 && Valid(s[First(s)..]))
  }

  method IsValidUtf8(value: seq<Byte>) returns (ok: bool)
    ensures ok == Valid(value)
  {
    hide ValidSequenceLength, First;
    var offset := 0;
    while offset < |value|
      invariant offset <= |value|
      invariant Valid(value) == Valid(value[offset..])
      decreases |value| - offset
    {
      var length := ValidSequenceLength(value, offset);
      ValidFrom(value, offset);
      if length == 0 {
        return false;
      }
      offset := offset + length;
    }
    return true;
  }

  lemma AtOffset(value: seq<Byte>, offset: nat)
    requires offset < |value|
    ensures ValidSequenceLength(value, offset) == First(value[offset..])
  {
  }

  lemma ValidFrom(value: seq<Byte>, offset: nat)
    requires offset < |value|
    ensures var n := ValidSequenceLength(value, offset);
            Valid(value[offset..]) <==> n > 0 && Valid(value[offset + n..])
  {
    AtOffset(value, offset);
    var n := ValidSequenceLength(value, offset);
    assert value[offset..][n..] == value[offset + n..];
  }

  // ---- Scalar values -------------------------------------------------------------------------

  predicate Scalar(c: nat) {
    c <= 0x10FFFF && !(0xD800 <= c <= 0xDFFF)
  }

  /** The encoding of one scalar value, section 3 of RFC 3629. */
  function Encode(c: nat): (s: seq<Byte>)
    requires c <= 0x10FFFF
    ensures 0 < |s| <= 4
  {
    if c < 0x80 then [c]
    else if c < 0x800 then [0xC0 + c / 64, 0x80 + c % 64]
    else if c < 0x10000 then [0xE0 + c / 64 / 64, 0x80 + c / 64 % 64, 0x80 + c % 64]
    else [0xF0 + c / 64 / 64 / 64, 0x80 + c / 64 / 64 % 64, 0x80 + c / 64 % 64, 0x80 + c % 64]
  }

  ghost function EncodeAll(cs: seq<nat>): seq<Byte>
    requires forall c | c in cs :: Scalar(c)
  {
    if cs == [] then [] else assert Scalar(cs[0]); Encode(cs[0]) + EncodeAll(cs[1..])
  }

  /** The scalar value that a valid first sequence encodes. */
  function Decode(s: seq<Byte>): nat
    requires First(s) > 0
  {
    match First(s)
    case 1 => s[0]
    case 2 => Join(s[0] - 0xC0, s[1])
    case 3 => Join(Join(s[0] - 0xE0, s[1]), s[2])
    case _ => Join(Join(Join(s[0] - 0xF0, s[1]), s[2]), s[3])
  }

  // Six more bits from a continuation byte.
  function Join(high: nat, low: Byte): (c: nat)
    requires IsContinuation(low)
    ensures c / 64 == high && 0x80 + c % 64 == low
  {
    high * 64 + (low - 0x80)
  }

  lemma DecodeEncodes(s: seq<Byte>)
    requires First(s) > 0
    ensures Scalar(Decode(s)) && Encode(Decode(s)) == s[..First(s)]
  {
    if First(s) == 1 {
    } else if First(s) == 2 {
    } else if First(s) == 3 {
      var c := Join(s[0] - 0xE0, s[1]);
      assert Decode(s) == Join(c, s[2]);
    } else {
      var c := Join(s[0] - 0xF0, s[1]);
      var d := Join(c, s[2]);
      assert Decode(s) == Join(d, s[3]);
    }
  }

  lemma EncodingIsFirst(c: nat, rest: seq<Byte>)
    requires Scalar(c)
    ensures First(Encode(c) + rest) == |Encode(c)|
  {
  }

  /** Valid means exactly: the encoding of some sequence of scalar values. */
  lemma {:induction false} ValidIffEncoding(s: seq<Byte>)
    ensures Valid(s) <==>
            exists cs: seq<nat> :: (forall c | c in cs :: Scalar(c)) && s == EncodeAll(cs)
  {
    if Valid(s) {
      var cs := Scalars(s);
    }
    forall cs: seq<nat> | (forall c | c in cs :: Scalar(c)) && s == EncodeAll(cs) ensures Valid(s) {
      EncodingIsValid(cs);
    }
  }

  lemma {:induction false} Scalars(s: seq<Byte>) returns (cs: seq<nat>)
    requires Valid(s)
    ensures forall c | c in cs :: Scalar(c)
    ensures s == EncodeAll(cs)
  {
    hide ValidSequenceLength, First, Decode, Encode;
    if s == [] {
      cs := [];
    } else {
      var tail := Scalars(s[First(s)..]);
      DecodeEncodes(s);
      cs := [Decode(s)] + tail;
      assert cs[1..] == tail;
    }
  }

  lemma {:induction false} EncodingIsValid(cs: seq<nat>)
    requires forall c | c in cs :: Scalar(c)
    ensures Valid(EncodeAll(cs))
  {
    hide ValidSequenceLength, First;
    if cs != [] {
      EncodingIsValid(cs[1..]);
      var rest := EncodeAll(cs[1..]);
      EncodingIsFirst(cs[0], rest);
      assert EncodeAll(cs)[|Encode(cs[0])|..] == rest;
    }
  }

  // ---- Character boundaries ------------------------------------------------------------------

  // What starts a valid sequence does not depend on what follows it.
  lemma FirstExtends(a: seq<Byte>, b: seq<Byte>)
    requires First(a) > 0
    ensures First(a + b) == First(a)
  {
  }

  lemma {:induction false} ValidConcat(a: seq<Byte>, b: seq<Byte>)
    requires Valid(a) && Valid(b)
    ensures Valid(a + b)
  {
    hide ValidSequenceLength, First;
    if a == [] {
      assert a + b == b;
    } else {
      FirstExtends(a, b);
      ValidConcat(a[First(a)..], b);
      assert (a + b)[First(a)..] == a[First(a)..] + b;
    }
  }

  lemma {:induction false} ValidSuffix(a: seq<Byte>, b: seq<Byte>)
    requires Valid(a + b) && Valid(a)
    ensures Valid(b)
  {
    hide ValidSequenceLength, First;
    if a == [] {
      assert a + b == b;
    } else {
      FirstExtends(a, b);
      assert (a + b)[First(a)..] == a[First(a)..] + b;
      ValidSuffix(a[First(a)..], b);
    }
  }

  /** In valid text every byte that is no continuation byte starts a character. */
  lemma {:induction false} StartIsBoundary(s: seq<Byte>, k: nat)
    requires Valid(s) && k <= |s|
    requires k < |s| ==> !IsContinuation(s[k])
    ensures Valid(s[..k]) && Valid(s[k..])
  {
    hide ValidSequenceLength, First;
    var n := First(s);
    if k == 0 {
      assert s[..k] == [] && s[k..] == s;
    } else if s != [] {
      assert n <= k;
      StartIsBoundary(s[n..], k - n);
      assert s[n..][..k - n] == s[n..k] && s[n..][k - n..] == s[k..];
      assert s[..k] == s[..n] + s[n..k];
      OneCharacter(s);
      ValidConcat(s[..n], s[n..k]);
    }
  }

  lemma OneCharacter(s: seq<Byte>)
    requires First(s) > 0
    ensures First(s[..First(s)]) == First(s) && Valid(s[..First(s)])
  {
    var c := s[..First(s)];
    assert First(c) == First(s);
    assert c[First(c)..] == [];
  }

  /** The last boundary at or before `k`. */
  function Floor(s: seq<Byte>, k: nat): (j: nat)
    requires k <= |s| && Valid(s)
    ensures j <= k < j + 4
    decreases |s|
  {
    if s == [] || First(s) > k then 0 else First(s) + Floor(s[First(s)..], k - First(s))
  }

  lemma ValidUnfolds(s: seq<Byte>)
    ensures Valid(s) <==> s == [] || (First(s) > 0 && Valid(s[First(s)..]))
    ensures s[..0] == [] && s[0..] == s
    ensures Valid([])
  {
  }

  lemma {:induction false} FloorIsBoundary(s: seq<Byte>, k: nat)
    requires k <= |s| && Valid(s)
    ensures Valid(s[..Floor(s, k)]) && Valid(s[Floor(s, k)..])
    decreases |s|
  {
    hide Valid, ValidSequenceLength, First;
    ValidUnfolds(s);
    var n := First(s);
    if s != [] && n <= k {
      var tail := s[n..];
      FloorIsBoundary(tail, k - n);
      var j := Floor(tail, k - n);
      OneCharacter(s);
      ValidConcat(s[..n], tail[..j]);
      assert s[..n] + tail[..j] == s[..n + j];
      assert tail[j..] == s[n + j..];
    }
  }

  /** A valid prefix never ends after the last boundary. */
  lemma {:induction false} FloorIsLast(s: seq<Byte>, k: nat, j: nat)
    requires j <= k <= |s| && Valid(s) && Valid(s[..j])
    ensures j <= Floor(s, k)
    decreases |s|
  {
    hide ValidSequenceLength, First;
    if j > 0 {
      var n := First(s);
      var c := s[..j];
      assert c + s[j..] == s;
      FirstExtends(c, s[j..]);
      assert c[n..] == s[n..][..j - n];
      FloorIsLast(s[n..], k - n, j - n);
    }
  }
}
