/**
  Utf8ContextAroundMatch of plugin/src/utf8.cpp: the text around a literal match, cut to at most
  `contextBytes` on each side without splitting a character.
 */
module ContextWindow {
  import opened Options
  import opened Utf8

  const MAX_CONTEXT_BYTES: nat := 128
  const MAX_MATCH_BYTES: nat := 1024

  datatype Context = Context(before: seq<Byte>, match_: seq<Byte>, after: seq<Byte>,
                             text: seq<Byte>, textOffset: nat, truncated: bool)

  /** The arguments that are answered. */
  predicate Accepted(value: seq<Byte>, offset: nat, length: nat, contextBytes: nat) {
    contextBytes <= MAX_CONTEXT_BYTES && length <= MAX_MATCH_BYTES && offset + length <= |value| &&
    Valid(value) && Valid(value[offset..offset + length])
  }

  function Min(a: nat, b: nat): nat {
    if a <= b then a else b
  }

  // Where the widest window on the left would start.
  function Leftmost(offset: nat, contextBytes: nat): nat {
    if offset > contextBytes then offset - contextBytes else 0
  }

  predicate OnBoundary(value: seq<Byte>, k: nat) {
    k <= |value| && Valid(value[..k])
  }

  /** No character starts in the window on the left, so the window is given up entirely. */
  predicate WindowMissesStart(value: seq<Byte>, offset: nat, contextBytes: nat)
    requires offset <= |value|
  {
    forall k | Leftmost(offset, contextBytes) <= k < offset :: IsContinuation(value[k])
  }

  /** The first place from `from` on where a character starts, or `to` if there is none before. */
  predicate FirstStart(value: seq<Byte>, from: nat, to: nat, start: nat)
    requires to <= |value|
  {
    && from <= start <= to
    && (forall k | from <= k < start :: IsContinuation(value[k]))
    && (start < to ==> !IsContinuation(value[start]))
  }

  predicate ValidSlice(value: seq<Byte>, from: nat, to: nat) {
    from <= to <= |value| && Valid(value[from..to])
  }

  /** The last place up to `to` where what begins at `from` is whole characters. */
  predicate LastEnd(value: seq<Byte>, from: nat, to: nat, end: nat) {
    end <= to && ValidSlice(value, from, end) &&
    forall k | end < k <= to :: !ValidSlice(value, from, k)
  }

  method ContextAroundMatch(value: seq<Byte>, offset: nat, length: nat, contextBytes: nat)
    returns (result: Option<Context>)
    ensures result.Some? <==>
              && contextBytes <= 128 && length <= 1024 && offset + length <= |value|
              && Valid(value) && Valid(value[offset..offset + length])
    // The three parts are one slice of the value around the match.
    ensures result.Some? ==>
              var c := result.value;
              var end := offset + length + |c.after|;
              && c.textOffset + |c.before| == offset && end <= |value|
              && c.before == value[c.textOffset..offset]
              && c.match_ == value[offset..offset + length]
              && c.after == value[offset + length..end]
              && c.text == c.before + c.match_ + c.after == value[c.textOffset..end]
              && (c.truncated <==> c.text != value)
              && |c.before| <= contextBytes && |c.after| <= contextBytes
    // No split character, exactly when the match starts on one or nothing is shown before it.
    ensures result.Some? ==>
              && Valid(result.value.after)
              && (Valid(result.value.before) <==>
                  length > 0 || OnBoundary(value, offset) ||
                  WindowMissesStart(value, offset, contextBytes))
    // The text begins with the first character that starts in the window, and ends with the last one
    // that ends in it.
    ensures result.Some? ==>
              var c := result.value;
              var end := offset + length + |c.after|;
              && FirstStart(value, Leftmost(offset, contextBytes), offset, c.textOffset)
              && LastEnd(value, offset + length, Min(|value|, offset + length + contextBytes), end)
    // Nothing is cut that the window had room for, up to the rest of one character.
    ensures result.Some? && (length > 0 || OnBoundary(value, offset)) ==>
              && |result.value.before| + 3 >= Min(contextBytes, offset)
              && |result.value.after| + 3 >= Min(contextBytes, |value| - offset - length)
  {
    hide Valid, ValidSequenceLength, First, OnBoundary, WindowMissesStart, Leftmost, FirstStart, LastEnd;
    if contextBytes > MAX_CONTEXT_BYTES || length > MAX_MATCH_BYTES || offset > |value| ||
       length > |value| - offset {
      return None;
    }
    var whole := IsValidUtf8(value);
    var inner := IsValidUtf8(value[offset..offset + length]);
    if !whole || !inner {
      return None;
    }
    var start := StartOfContext(value, offset, length, contextBytes);
    var matchEnd := offset + length;
    var end := EndOfContext(value, offset, length, contextBytes);
    var before := value[start..offset];
    var match_ := value[offset..matchEnd];
    var after := value[matchEnd..end];
    var text := before + match_ + after;
    assert text == value[start..end];
    assert start == 0 && end == |value| ==> text == value;
    result := Some(Context(before, match_, after, text, start, start != 0 || end != |value|));
  }

  method StartOfContext(value: seq<Byte>, offset: nat, length: nat, contextBytes: nat)
    returns (start: nat)
    requires Accepted(value, offset, length, contextBytes)
    ensures start <= offset <= start + contextBytes
    ensures FirstStart(value, Leftmost(offset, contextBytes), offset, start)
    ensures Valid(value[start..offset]) <==>
            length > 0 || OnBoundary(value, offset) ||
            WindowMissesStart(value, offset, contextBytes)
    ensures length > 0 || OnBoundary(value, offset) ==>
              offset - start + 3 >= Min(contextBytes, offset)
  {
    hide Valid, ValidSequenceLength, First;
    start := if offset > contextBytes then offset - contextBytes else 0;
    while start < offset && IsContinuation(value[start])
      invariant Leftmost(offset, contextBytes) <= start <= offset
      invariant forall k | Leftmost(offset, contextBytes) <= k < start :: IsContinuation(value[k])
    {
      start := start + 1;
    }
    LeftSide(value, offset, length, contextBytes, start);
  }

  method EndOfContext(value: seq<Byte>, offset: nat, length: nat, contextBytes: nat)
    returns (end: nat)
    requires Accepted(value, offset, length, contextBytes)
    ensures offset + length <= end <= |value| && end <= offset + length + contextBytes
    ensures Valid(value[offset + length..end])
    ensures LastEnd(value, offset + length, Min(|value|, offset + length + contextBytes), end)
    ensures length > 0 || OnBoundary(value, offset) ==>
              end - offset - length + 3 >= Min(contextBytes, |value| - offset - length)
  {
    hide Valid, ValidSequenceLength, First, Accepted, OnBoundary;
    var matchEnd := offset + length;
    assert matchEnd <= |value| by { AcceptedFits(value, offset, length, contextBytes); }
    end := Min(|value|, matchEnd + contextBytes);
    var widest := end;
    while end > matchEnd
      invariant matchEnd <= end <= widest
      invariant forall k | end < k <= widest :: !ValidSlice(value, matchEnd, k)
    {
      var ok := IsValidUtf8(value[matchEnd..end]);
      if ok {
        break;
      }
      end := end - 1;
    }
    RightSide(value, offset, length, contextBytes, end);
  }

  lemma AcceptedFits(value: seq<Byte>, offset: nat, length: nat, contextBytes: nat)
    requires Accepted(value, offset, length, contextBytes)
    ensures offset + length <= |value|
  {
  }

  // A nonempty valid match starts and ends on boundaries, as an empty one on a boundary does.
  lemma MatchOnBoundary(value: seq<Byte>, offset: nat, length: nat)
    requires offset + length <= |value| && Valid(value) && Valid(value[offset..offset + length])
    requires length > 0 || OnBoundary(value, offset)
    ensures Valid(value[..offset]) && Valid(value[offset..])
    ensures Valid(value[..offset + length]) && Valid(value[offset + length..])
  {
    hide Valid, ValidSequenceLength, First;
    var before, match_, rest := value[..offset], value[offset..offset + length], value[offset..];
    if length > 0 {
      ValidUnfolds(match_);
      assert match_[0] == value[offset];
      StartIsBoundary(value, offset);
    } else {
      assert before + rest == value;
      ValidSuffix(before, rest);
    }
    assert rest == match_ + value[offset + length..];
    ValidSuffix(match_, value[offset + length..]);
    assert value[..offset + length] == before + match_;
    ValidConcat(before, match_);
  }

  // The character covering byte `j` starts at `Floor`, at most three bytes earlier.
  lemma {:induction false} CharacterAt(s: seq<Byte>, j: nat)
    requires Valid(s) && j < |s|
    ensures !IsContinuation(s[Floor(s, j)])
    decreases |s|
  {
    hide ValidSequenceLength;
    if First(s) <= j {
      CharacterAt(s[First(s)..], j - First(s));
    }
  }

  // At most three continuation bytes are skipped.
  lemma SkipsAtMostThree(value: seq<Byte>, from: nat, start: nat)
    requires Valid(value) && from <= start <= |value|
    requires forall k | from <= k < start :: IsContinuation(value[k])
    ensures start <= from + 3
  {
    if start > from + 3 {
      CharacterAt(value, from + 3);
      assert false;
    }
  }

  lemma LeftSide(value: seq<Byte>, offset: nat, length: nat, contextBytes: nat, start: nat)
    requires Accepted(value, offset, length, contextBytes)
    requires Leftmost(offset, contextBytes) <= start <= offset
    requires forall k | Leftmost(offset, contextBytes) <= k < start :: IsContinuation(value[k])
    requires start < offset ==> !IsContinuation(value[start])
    ensures Valid(value[start..offset]) <==>
            length > 0 || OnBoundary(value, offset) ||
            WindowMissesStart(value, offset, contextBytes)
    ensures length > 0 || OnBoundary(value, offset) ==>
              offset - start + 3 >= Min(contextBytes, offset)
  {
    hide Valid, ValidSequenceLength, First;
    ValidUnfolds([]);
    if start == offset {
      assert value[start..offset] == [];
    } else {
      StartIsBoundary(value, start);
      var before := value[start..offset];
      assert value[..start] + before == value[..offset];
      if length > 0 || OnBoundary(value, offset) {
        MatchOnBoundary(value, offset, length);
        ValidSuffix(value[..start], before);
      } else if Valid(before) {
        ValidConcat(value[..start], before);
        assert false;
      }
    }
    SkipsAtMostThree(value, Leftmost(offset, contextBytes), start);
  }

  lemma RightSide(value: seq<Byte>, offset: nat, length: nat, contextBytes: nat, end: nat)
    requires Accepted(value, offset, length, contextBytes)
    requires offset + length <= end <= Min(|value|, offset + length + contextBytes)
    requires end > offset + length ==> Valid(value[offset + length..end])
    requires var matchEnd, widest := offset + length, Min(|value|, offset + length + contextBytes);
             forall k | end < k <= widest :: !ValidSlice(value, matchEnd, k)
    ensures Valid(value[offset + length..end])
    ensures length > 0 || OnBoundary(value, offset) ==>
              end - offset - length + 3 >= Min(contextBytes, |value| - offset - length)
  {
    hide Valid, ValidSequenceLength, First;
    var matchEnd := offset + length;
    ValidUnfolds([]);
    if end == matchEnd {
      assert value[matchEnd..end] == [];
    }
    if length > 0 || OnBoundary(value, offset) {
      MatchOnBoundary(value, offset, length);
      var tail := value[matchEnd..];
      var room := Min(contextBytes, |tail|);
      FloorIsBoundary(tail, room);
      var last := Floor(tail, room);
      assert tail[..last] == value[matchEnd..matchEnd + last];
      assert ValidSlice(value, matchEnd, matchEnd + last);
    }
  }

  /** An empty match inside the two bytes of U+00E9 is accepted and does split that character. */
  lemma EmptyMatchSplitsCharacter()
    ensures Accepted([0xC3, 0xA9], 1, 0, 1)
    ensures !OnBoundary([0xC3, 0xA9], 1) && !WindowMissesStart([0xC3, 0xA9], 1, 1)
  {
    var value: seq<Byte> := [0xC3, 0xA9];
    assert First(value) == 2 && value[2..] == [];
    assert value[1..1] == [];
    assert value[..1] == [0xC3] && First(value[..1]) == 0;
    assert !IsContinuation(value[0]);
  }
}
