/**
  One page of AuditLog::read in crates/server/src/audit_log.rs: bytes of a segment up to a budget,
  cut back to whole characters and then to whole records.
 */
module AuditReader {
  import opened Options
  import opened Utf8
  import opened AuditTail
  import opened AuditStore

  // ---- Text that a byte budget has cut -------------------------------------------------------

  /** How far a decoder gets that stops at the first byte it cannot read. */
  function ValidUpTo(s: Bytes): (n: nat)
    ensures n <= |s|
  {
    if First(s) == 0 then 0 else First(s) + ValidUpTo(s[First(s)..])
  }

  /** The start of a character that ends with the input. */
  predicate Incomplete(s: Bytes) {
    || (|s| == 1 && 0xC2 <= s[0] <= 0xF4)
    || (|s| == 2 && (ThreeByteStart(s[0], s[1]) || FourByteStart(s[0], s[1])))
    || (|s| == 3 && FourByteStart(s[0], s[1]) && IsContinuation(s[2]))
  }

  /** The text at the start of some bytes, unless they are wrong rather than cut short. */
  function Usable(bytes: Bytes): (n: Option<nat>)
    ensures n.Some? ==> n.value <= |bytes|
  {
    var n := ValidUpTo(bytes);
    if n == |bytes| || Incomplete(bytes[n..]) then Some(n) else None
  }

  lemma CutCharacterIsIncomplete(s: Bytes, n: nat)
    requires 0 < n < First(s)
    ensures First(s[..n]) == 0 && Incomplete(s[..n])
  {}

  lemma FirstOfPrefix(s: Bytes, n: nat)
    requires 0 < First(s) <= n <= |s|
    ensures First(s[..n]) == First(s)
  {
    OneCharacter(s);
    FirstExtends(s[..First(s)], s[First(s)..n]);
    assert s[..First(s)] + s[First(s)..n] == s[..n];
  }

  /** Cutting text anywhere costs at most the last three bytes of what is left. */
  lemma {:induction false} PrefixIsUsable(s: Bytes, n: nat)
    requires Valid(s) && n <= |s|
    ensures var usable := Usable(s[..n]);
            && usable.Some? && n - usable.value <= 3
            && Valid(s[..usable.value]) && Valid(s[usable.value..])
            && (n == |s| ==> usable.value == n)
  {
    hide First, Incomplete, Valid;
    ValidUnfolds(s);
    var f := First(s);
    if n == 0 {
      assert s[..0] == [] && s[0..] == s;
      assert First([]) == 0 by { EmptyHasNoFirst(); }
    } else if n < f {
      CutCharacterIsIncomplete(s, n);
      assert s[..n][0..] == s[..n] && s[0..] == s && s[..0] == [];
    } else {
      var rest := s[f..];
      FirstOfPrefix(s, n);
      assert s[..n][f..] == rest[..n - f];
      PrefixIsUsable(rest, n - f);
      var v := Usable(rest[..n - f]).value;
      assert ValidUpTo(s[..n]) == f + v;
      assert s[..n][f + v..] == rest[..n - f][v..];
      assert s[f + v..] == rest[v..];
      assert s[..f + v] == s[..f] + rest[..v];
      OneCharacter(s);
      ValidConcat(s[..f], rest[..v]);
    }
  }

  lemma EmptyHasNoFirst()
    ensures First([]) == 0
  {}

  // ---- Whole records -------------------------------------------------------------------------

  /** How many newlines there are before an offset. */
  function Newlines(s: Bytes, k: nat): nat
    requires k <= |s|
  {
    if k == 0 then 0 else Newlines(s, k - 1) + if s[k - 1] == NEWLINE then 1 else 0
  }

  /** Where a page of at most `limit` records ends; without a complete record it takes it all. */
  ghost predicate PageEnd(bytes: Bytes, limit: nat, end: nat) {
    && end <= |bytes|
    && Newlines(bytes, end) <= limit
    && (NEWLINE !in bytes ==> end == |bytes|)
    && (NEWLINE in bytes ==>
          end > 0 && bytes[end - 1] == NEWLINE &&
          (NEWLINE in bytes[end..] ==> Newlines(bytes, end) == limit))
  }

  function NextNewline(bytes: Bytes, from: nat): (k: nat)
    requires from <= |bytes|
    ensures from <= k <= |bytes|
    ensures k < |bytes| ==> bytes[k] == NEWLINE
    ensures forall j | from <= j < k :: bytes[j] != NEWLINE
    decreases |bytes| - from
  {
    if from == |bytes| || bytes[from] == NEWLINE then from else NextNewline(bytes, from + 1)
  }

  /** The end of the last record among the first `limit` from here on, or `last` if there is none. */
  function LastBoundary(bytes: Bytes, last: nat, from: nat, limit: nat): (end: nat)
    requires last <= from <= |bytes|
    ensures last <= end <= |bytes|
    decreases |bytes| - from
  {
    var k := NextNewline(bytes, from);
    if limit == 0 || k == |bytes| then last else LastBoundary(bytes, k + 1, k + 1, limit - 1)
  }

  function Cut(bytes: Bytes, limit: nat): (end: nat)
    ensures end <= |bytes|
  {
    var end := LastBoundary(bytes, 0, 0, limit);
    if end == 0 then |bytes| else end
  }

  lemma {:induction false} CountSkips(bytes: Bytes, start: nat, end: nat)
    requires start <= end <= |bytes| && forall j | start <= j < end :: bytes[j] != NEWLINE
    ensures Newlines(bytes, end) == Newlines(bytes, start)
    decreases end
  {
    if start < end {
      CountSkips(bytes, start, end - 1);
    }
  }

  lemma {:induction false} CountInPrefix(bytes: Bytes, end: nat, k: nat)
    requires k <= end <= |bytes|
    ensures Newlines(bytes[..end], k) == Newlines(bytes, k)
  {
    if k > 0 {
      CountInPrefix(bytes, end, k - 1);
    }
  }

  lemma {:induction false} BoundaryCounts(bytes: Bytes, last: nat, from: nat, limit: nat)
    requires last <= from <= |bytes| && forall j | last <= j < from :: bytes[j] != NEWLINE
    requires last > 0 ==> bytes[last - 1] == NEWLINE
    ensures var end := LastBoundary(bytes, last, from, limit);
            && (end > 0 ==> bytes[end - 1] == NEWLINE)
            && Newlines(bytes, end) <= Newlines(bytes, last) + limit
            && ((exists j :: end <= j < |bytes| && bytes[j] == NEWLINE) ==>
                  Newlines(bytes, end) == Newlines(bytes, last) + limit)
    decreases |bytes| - from
  {
    hide NextNewline;
    var k := NextNewline(bytes, from);
    if limit > 0 && k < |bytes| {
      BoundaryCounts(bytes, k + 1, k + 1, limit - 1);
      CountSkips(bytes, last, k);
    }
  }

  lemma CutIsPageEnd(bytes: Bytes, limit: nat)
    requires limit > 0
    ensures PageEnd(bytes, limit, Cut(bytes, limit))
  {
    BoundaryCounts(bytes, 0, 0, limit);
    var end := LastBoundary(bytes, 0, 0, limit);
    assert NEWLINE in bytes[end..] ==> exists j :: end <= j < |bytes| && bytes[j] == NEWLINE;
    if NEWLINE !in bytes {
      CountSkips(bytes, 0, |bytes|);
    }
    assert NEWLINE in bytes ==> end > 0;
  }

  lemma BoundaryStep(bytes: Bytes, last: nat, i: nat, limit: nat)
    requires last <= i <= |bytes|
    ensures limit == 0 || i == |bytes| ==> LastBoundary(bytes, last, i, limit) == last
    ensures limit > 0 && i < |bytes| ==>
              LastBoundary(bytes, last, i, limit) ==
              if bytes[i] == NEWLINE then LastBoundary(bytes, i + 1, i + 1, limit - 1)
              else LastBoundary(bytes, last, i + 1, limit)
  {}

  method CompleteRecords(bytes: Bytes, limit: nat) returns (end: nat, completed: nat)
    requires limit > 0
    ensures end == Cut(bytes, limit) && completed == Newlines(bytes, end)
  {
    hide LastBoundary;
    var last, i := 0, 0;
    completed := 0;
    while i < |bytes| && completed < limit
      invariant last <= i <= |bytes| && completed <= limit
      invariant completed == Newlines(bytes, last)
      invariant last == 0 <==> completed == 0
      invariant forall j | last <= j < i :: bytes[j] != NEWLINE
      invariant LastBoundary(bytes, last, i, limit - completed) ==
                LastBoundary(bytes, 0, 0, limit)
    {
      BoundaryStep(bytes, last, i, limit - completed);
      if bytes[i] == NEWLINE {
        CountSkips(bytes, last, i);
        completed := completed + 1;
        last := i + 1;
      }
      i := i + 1;
    }
    BoundaryStep(bytes, last, i, limit - completed);
    end := if last > 0 then last else |bytes|;
    if last == 0 {
      CountSkips(bytes, 0, |bytes|);
    }
  }

  // ---- Pieces of files -----------------------------------------------------------------------

  function Slice(b: Bytes, start: nat, end: nat): (r: Bytes)
    requires start <= end <= |b|
    ensures |r| == end - start
  {
    b[start..end]
  }

  lemma SliceSplits(b: Bytes, start: nat, mid: nat, end: nat)
    requires start <= mid <= end <= |b|
    ensures Slice(b, start, end) == Slice(b, start, mid) + Slice(b, mid, end)
    ensures Slice(b, start, end)[..mid - start] == Slice(b, start, mid)
    ensures Slice(b, start, end)[mid - start..] == Slice(b, mid, end)
  {}

  lemma SlicesAgree(a: Bytes, b: Bytes, length: nat, start: nat, end: nat)
    requires start <= end <= length <= |a| && length <= |b|
    requires Slice(a, 0, length) == Slice(b, 0, length)
    ensures Slice(a, start, end) == Slice(b, start, end)
  {
    assert a[..length][start..end] == a[start..end] && b[..length][start..end] == b[start..end];
  }

  // ---- Cursors -------------------------------------------------------------------------------

  /** A place in a list of segments as they were when the reading began. */
  datatype Cursor = Cursor(segments: seq<Segment>, index: nat, offset: nat, partial: bool)

  predicate Ended(c: Cursor) {
    c.index >= |c.segments|
  }

  function Advanced(c: Cursor): Cursor
    decreases |c.segments| - c.index
  {
    if !Ended(c) && c.offset == c.segments[c.index].length then
      Advanced(c.(index := c.index + 1, offset := 0, partial := false))
    else c
  }

  method AdvanceEmptySegments(cursor: Cursor) returns (c: Cursor)
    ensures c == Advanced(cursor)
  {
    c := cursor;
    while c.index < |c.segments| && c.offset == c.segments[c.index].length
      invariant Advanced(c) == Advanced(cursor)
      decreases |c.segments| - c.index
    {
      c := c.(index := c.index + 1, offset := 0, partial := false);
    }
  }

  datatype Page = Page(
    text: Bytes, completed: nat, segment: nat, offset: nat, startsMid: bool, endsMid: bool)

  predicate EndsMid(text: Bytes) {
    text == [] || text[|text| - 1] != NEWLINE
  }

  /** Whole characters, then whole records if there are any; none if the bytes are no text. */
  function TextOf(bytes: Bytes, limit: nat): (text: Option<Bytes>)
    ensures text.Some? ==> |text.value| <= |bytes|
  {
    var usable := Usable(bytes);
    if usable.None? then None
    else Some(bytes[..usable.value][..Cut(bytes[..usable.value], limit)])
  }

  /** How many bytes of its segment a cursor may get at once. */
  function Count(c: Cursor, budget: nat): nat
    requires !Ended(c)
  {
    var end := c.segments[c.index].length;
    if end <= c.offset then 0 else if budget <= end - c.offset then budget else end - c.offset
  }

  function PageOf(c: Cursor, text: Bytes): Page
    requires !Ended(c)
  {
    Page(text, Newlines(text, |text|), c.segments[c.index].id, c.offset, c.partial, EndsMid(text))
  }

  /** The page a cursor gets from the contents of its segment, if they can be read as text. */
  function PageAt(c: Cursor, content: Bytes, limit: nat, budget: nat): Option<Page>
    requires !Ended(c)
  {
    if c.offset + Count(c, budget) > |content| then None
    else
      var text := TextOf(Slice(content, c.offset, c.offset + Count(c, budget)), limit);
      if text.None? then None else Some(PageOf(c, text.value))
  }

  method ReadPage(c: Cursor, content: Bytes, limit: nat, budget: nat) returns (page: Option<Page>)
    requires !Ended(c) && limit > 0
    ensures page == PageAt(c, content, limit, budget)
  {
    hide Usable, Cut, Newlines;
    var count := Count(c, budget);
    if c.offset + count > |content| {
      return None;
    }
    var bytes := content[c.offset..c.offset + count];
    var valid := Usable(bytes);
    if valid.None? {
      return None;
    }
    bytes := bytes[..valid.value];
    var end, completed := CompleteRecords(bytes, limit);
    CountInPrefix(bytes, end, end);
    var text := bytes[..end];
    return Some(Page(text, completed, c.segments[c.index].id, c.offset, c.partial,
                     text == [] || text[|text| - 1] != NEWLINE));
  }

  function After(c: Cursor, page: Page): Cursor {
    Advanced(c.(offset := c.offset + |page.text|, partial := page.endsMid))
  }

  // ---- What is left to read ------------------------------------------------------------------

  /** What the snapshot saw of its segments is still there. */
  predicate Stored(segments: seq<Segment>, archive: map<nat, Bytes>) {
    forall i | 0 <= i < |segments| ::
      segments[i].id in archive && segments[i].length <= |archive[segments[i].id]|
  }

  function From(segments: seq<Segment>, index: nat, archive: map<nat, Bytes>): Bytes
    requires Stored(segments, archive)
    decreases |segments| - index
  {
    if index >= |segments| then []
    else Slice(archive[segments[index].id], 0, segments[index].length) +
         From(segments, index + 1, archive)
  }

  /** Whether these segments, each by itself, are text. */
  predicate TextFrom(segments: seq<Segment>, index: nat, archive: map<nat, Bytes>)
    requires Stored(segments, archive)
    decreases |segments| - index
  {
    index >= |segments| ||
    (Valid(Slice(archive[segments[index].id], 0, segments[index].length)) &&
     TextFrom(segments, index + 1, archive))
  }

  /** The snapshot is of contents that are still there, and the cursor is inside of it. */
  predicate Sound(c: Cursor, archive: map<nat, Bytes>) {
    && Stored(c.segments, archive)
    && (!Ended(c) ==> c.offset <= c.segments[c.index].length)
  }

  /** What is left of the segment a cursor is in. */
  function Left(c: Cursor, archive: map<nat, Bytes>): (left: Bytes)
    requires Sound(c, archive) && !Ended(c)
    ensures |left| == c.segments[c.index].length - c.offset
  {
    Slice(archive[c.segments[c.index].id], c.offset, c.segments[c.index].length)
  }

  function Rest(c: Cursor, archive: map<nat, Bytes>): Bytes
    requires Sound(c, archive)
  {
    if Ended(c) then [] else Left(c, archive) + From(c.segments, c.index + 1, archive)
  }

  /** Whether everything that is left to read, each segment by itself, is text. */
  predicate TextLeft(c: Cursor, archive: map<nat, Bytes>)
    requires Sound(c, archive)
  {
    Ended(c) || (Valid(Left(c, archive)) && TextFrom(c.segments, c.index + 1, archive))
  }

  // At the end of a segment the next one is left, and whether it is text does not change.
  lemma EndOfSegment(c: Cursor, archive: map<nat, Bytes>)
    requires Sound(c, archive) && !Ended(c) && c.offset == c.segments[c.index].length
    ensures var next := c.(index := c.index + 1, offset := 0, partial := false);
            && Sound(next, archive) && Rest(next, archive) == Rest(c, archive)
            && (TextLeft(next, archive) <==> TextLeft(c, archive))
  {
    hide Slice, First;
    assert Left(c, archive) == [] && Valid([]);
    hide Valid;
  }

  lemma {:induction false} AdvancingSkipsNothing(c: Cursor, archive: map<nat, Bytes>)
    requires Sound(c, archive)
    ensures Sound(Advanced(c), archive) && Rest(Advanced(c), archive) == Rest(c, archive)
    ensures TextLeft(Advanced(c), archive) <==> TextLeft(c, archive)
    ensures Advanced(c).segments == c.segments
    ensures !Ended(Advanced(c)) ==>
              Advanced(c).offset < Advanced(c).segments[Advanced(c).index].length
    decreases |c.segments| - c.index
  {
    hide Rest, TextLeft;
    if !Ended(c) && c.offset == c.segments[c.index].length {
      EndOfSegment(c, archive);
      AdvancingSkipsNothing(c.(index := c.index + 1, offset := 0, partial := false), archive);
    }
  }

  // ---- A page is the next piece of what is left ----------------------------------------------

  lemma NewlineIsFirst(s: Bytes)
    requires s != [] && s[0] == NEWLINE
    ensures First(s) == 1
  {}

  lemma OneNewline()
    ensures Valid([NEWLINE])
  {
    assert [NEWLINE][1..] == [];
  }

  lemma AfterNewlineIsBoundary(s: Bytes, k: nat)
    requires Valid(s) && 0 < k <= |s| && s[k - 1] == NEWLINE
    ensures Valid(s[..k]) && Valid(s[k..])
  {
    hide Valid, First;
    StartIsBoundary(s, k - 1);
    var line := s[k - 1..];
    NewlineIsFirst(line);
    ValidUnfolds(line);
    assert line[1..] == s[k..];
    OneNewline();
    ValidConcat(s[..k - 1], [NEWLINE]);
    assert s[..k] == s[..k - 1] + [NEWLINE];
  }

  /** A page of at most `limit` records, which are text. */
  predicate Piece(left: Bytes, text: Bytes, limit: nat) {
    && |text| <= |left| && text == left[..|text|]
    && Valid(text)
    && Newlines(text, |text|) <= limit
  }

  // What a decoder gets through is text.
  lemma {:induction false} UpToIsValid(s: Bytes)
    ensures Valid(s[..ValidUpTo(s)])
  {
    hide Valid, First;
    ValidUnfolds(s);
    var f := First(s);
    if f > 0 {
      var rest := s[f..];
      UpToIsValid(rest);
      OneCharacter(s);
      ValidConcat(s[..f], rest[..ValidUpTo(rest)]);
      assert s[..f + ValidUpTo(rest)] == s[..f] + rest[..ValidUpTo(rest)];
    }
  }

  // It stops where no character starts.
  lemma {:induction false} UpToStops(s: Bytes)
    ensures First(s[ValidUpTo(s)..]) == 0
  {
    hide First;
    if First(s) > 0 {
      var rest := s[First(s)..];
      UpToStops(rest);
      assert s[First(s) + ValidUpTo(rest)..] == rest[ValidUpTo(rest)..];
    } else {
      assert s[0..] == s;
    }
  }

  // Bytes that complete the start of a character.
  function Completion(s: Bytes): Bytes {
    if |s| == 1 then
      if s[0] < 0xE0 then [0x80]
      else if s[0] == 0xE0 then [0xA0, 0x80]
      else if s[0] < 0xF0 then [0x80, 0x80]
      else if s[0] == 0xF0 then [0x90, 0x80, 0x80]
      else [0x80, 0x80, 0x80]
    else if |s| == 2 then if s[0] < 0xF0 then [0x80] else [0x80, 0x80]
    else [0x80]
  }

  lemma CompletionCompletes(s: Bytes)
    requires Incomplete(s)
    ensures First(s + Completion(s)) == |s + Completion(s)|
  {}

  /**
    Bytes are read as far as they are text, and not at all if and only if no bytes could follow that
    make them text.
   */
  lemma UsableExactly(bytes: Bytes)
    ensures Usable(bytes).Some? <==> exists more: Bytes :: Valid(bytes + more)
    ensures Usable(bytes).Some? ==>
              var n := Usable(bytes).value;
              Valid(bytes[..n]) && forall m | n < m <= |bytes| :: !Valid(bytes[..m])
  {
    hide Valid, First, Incomplete, ValidUpTo;
    UpToIsValid(bytes);
    forall m | ValidUpTo(bytes) < m <= |bytes| ensures !Valid(bytes[..m]) {
      NothingLonger(bytes, m);
    }
    if Usable(bytes).Some? {
      UsableExtends(bytes);
    }
    forall more: Bytes | Valid(bytes + more) ensures Usable(bytes).Some? {
      ExtendedIsUsable(bytes, more);
    }
  }

  lemma ExtendedIsUsable(bytes: Bytes, more: Bytes)
    requires Valid(bytes + more)
    ensures Usable(bytes).Some?
  {
    hide Valid, Usable;
    PrefixIsUsable(bytes + more, |bytes|);
    assert (bytes + more)[..|bytes|] == bytes;
  }

  lemma UsableExtends(bytes: Bytes)
    requires Usable(bytes).Some?
    ensures exists more: Bytes :: Valid(bytes + more)
  {
    hide Valid, First, Incomplete, ValidUpTo, Completion;
    UpToIsValid(bytes);
    var text, tail := bytes[..ValidUpTo(bytes)], bytes[ValidUpTo(bytes)..];
    if tail == [] {
      assert text == bytes && bytes + [] == bytes;
    } else {
      CompletedIsValid(tail);
      ValidConcat(text, tail + Completion(tail));
      assert bytes + Completion(tail) == text + (tail + Completion(tail));
    }
  }

  lemma CompletedIsValid(s: Bytes)
    requires Incomplete(s)
    ensures Valid(s + Completion(s))
  {
    hide First, Incomplete;
    CompletionCompletes(s);
    OneCharacter(s + Completion(s));
    assert (s + Completion(s))[..|s + Completion(s)|] == s + Completion(s);
  }

  // Text that goes on with no character is no longer text.
  lemma NoTextBeyond(text: Bytes, more: Bytes, rest: Bytes)
    requires Valid(text) && more != [] && First(more + rest) == 0
    ensures !Valid(text + more)
  {
    hide Valid, First;
    ValidUnfolds(more);
    if Valid(text + more) {
      ValidSuffix(text, more);
      FirstExtends(more, rest);
    }
  }

  lemma NothingLonger(bytes: Bytes, m: nat)
    requires ValidUpTo(bytes) < m <= |bytes|
    ensures !Valid(bytes[..m])
  {
    hide Valid, First, ValidUpTo;
    var n := ValidUpTo(bytes);
    UpToIsValid(bytes);
    UpToStops(bytes);
    var more, rest := bytes[n..m], bytes[m..];
    assert more + rest == bytes[n..];
    NoTextBeyond(bytes[..n], more, rest);
    assert bytes[..n] + more == bytes[..m];
  }

  // Cutting text to whole records leaves text.
  lemma CutText(bytes: Bytes, limit: nat)
    requires Valid(bytes) && limit > 0
    ensures Piece(bytes, bytes[..Cut(bytes, limit)], limit)
    ensures bytes != [] ==> bytes[..Cut(bytes, limit)] != []
  {
    hide Valid, Cut, Newlines;
    CutIsPageEnd(bytes, limit);
    var end := Cut(bytes, limit);
    CountInPrefix(bytes, end, end);
    if NEWLINE in bytes {
      AfterNewlineIsBoundary(bytes, end);
    } else {
      assert bytes[..end] == bytes;
    }
  }

  lemma PieceOfPrefix(s: Bytes, n: nat, text: Bytes, limit: nat)
    requires n <= |s| && Piece(s[..n], text, limit)
    ensures Piece(s, text, limit)
  {
    assert s[..n][..|text|] == s[..|text|];
    hide Valid, Newlines;
  }

  /** Whatever the bytes are, a page takes a piece of them. */
  lemma TextIsPiece(bytes: Bytes, limit: nat)
    requires limit > 0
    ensures var text := TextOf(bytes, limit);
            text.Some? ==> Piece(bytes, text.value, limit)
  {
    hide Valid, Cut, Piece, Incomplete;
    if Usable(bytes).Some? {
      var v := ValidUpTo(bytes);
      UpToIsValid(bytes);
      CutText(bytes[..v], limit);
      PieceOfPrefix(bytes, v, bytes[..v][..Cut(bytes[..v], limit)], limit);
    }
  }

  /** Of text cut anywhere there is always a page, with something in it if four bytes are there. */
  lemma TextIsThere(s: Bytes, count: nat, limit: nat)
    requires Valid(s) && count <= |s| && limit > 0
    requires count > 3 || (count == |s| && count > 0)
    ensures var text := TextOf(s[..count], limit);
            text.Some? && text.value != []
  {
    hide Valid, Usable, Cut, Piece;
    PrefixIsUsable(s, count);
    var v := Usable(s[..count]).value;
    assert s[..count][..v] == s[..v];
    CutText(s[..v], limit);
  }

  // What a piece leaves behind is text exactly if all of it was.
  lemma PieceLeaves(left: Bytes, text: Bytes, limit: nat)
    requires Piece(left, text, limit)
    ensures |text| <= |left| && text == left[..|text|]
    ensures Valid(left) <==> Valid(left[|text|..])
  {
    var rest := left[|text|..];
    assert left == text + rest;
    hide Valid, Newlines;
    if Valid(left) {
      ValidSuffix(text, rest);
    }
    if Valid(rest) {
      ValidConcat(text, rest);
    }
  }

  /** The file of a segment still has what the snapshot saw of it. */
  predicate Shows(content: Bytes, segment: Segment, archive: map<nat, Bytes>) {
    && segment.id in archive
    && segment.length <= |archive[segment.id]|
    && segment.length <= |content|
    && Slice(content, 0, segment.length) == Slice(archive[segment.id], 0, segment.length)
  }

  lemma PageReadsOn(c: Cursor, archive: map<nat, Bytes>, content: Bytes, limit: nat, budget: nat)
    requires Sound(c, archive) && !Ended(c)
    requires Shows(content, c.segments[c.index], archive)
    ensures var left := Left(c, archive);
            Count(c, budget) <= |left| &&
            var text := TextOf(left[..Count(c, budget)], limit);
            PageAt(c, content, limit, budget) ==
            if text.None? then None else Some(PageOf(c, text.value))
  {
    hide TextOf, Newlines, Slice, PageOf;
    var segment, count := c.segments[c.index], Count(c, budget);
    SlicesAgree(content, archive[segment.id], segment.length, c.offset, c.offset + count);
    SliceSplits(archive[segment.id], c.offset, c.offset + count, segment.length);
  }

  lemma TextIsValid(c: Cursor, archive: map<nat, Bytes>)
    requires Sound(c, archive) && TextLeft(c, archive) && !Ended(c)
    ensures Valid(Left(c, archive))
  {}

  /**
    Every page is a piece of what is left of the segment. If what is left is text there is a page,
    and it is never empty.
   */
  lemma PageIsPiece(c: Cursor, archive: map<nat, Bytes>, content: Bytes, limit: nat, budget: nat)
    requires Sound(c, archive) && !Ended(c) && c.offset < c.segments[c.index].length
    requires Shows(content, c.segments[c.index], archive) && limit > 0 && budget > 3
    ensures var page := PageAt(c, content, limit, budget);
            && (page.Some? ==>
                  && Piece(Left(c, archive), page.value.text, limit)
                  && page.value.completed == Newlines(page.value.text, |page.value.text|)
                  && page.value.segment == c.segments[c.index].id && page.value.offset == c.offset
                  && page.value.startsMid == c.partial
                  && (page.value.endsMid <==>
                        page.value.text == [] || page.value.text[|page.value.text| - 1] != NEWLINE))
            && (TextLeft(c, archive) ==> page.Some? && page.value.text != [])
  {
    hide Sound, Shows, TextLeft, Left, Valid, PageAt, TextOf, Piece, Newlines;
    var left, count := Left(c, archive), Count(c, budget);
    PageReadsOn(c, archive, content, limit, budget);
    TextIsPiece(left[..count], limit);
    if TextOf(left[..count], limit).Some? {
      PieceOfPrefix(left, count, TextOf(left[..count], limit).value, limit);
    }
    if TextLeft(c, archive) {
      TextIsValid(c, archive);
      TextIsThere(left, count, limit);
    }
  }

  lemma LeftMoves(c: Cursor, archive: map<nat, Bytes>, text: Bytes, partial: bool)
    requires Sound(c, archive) && !Ended(c)
    requires |text| <= |Left(c, archive)| && text == Left(c, archive)[..|text|]
    ensures var next := c.(offset := c.offset + |text|, partial := partial);
            && Sound(next, archive)
            && Left(next, archive) == Left(c, archive)[|text|..]
            && Left(c, archive) == text + Left(next, archive)
  {
    hide Slice;
    var segment := c.segments[c.index];
    SliceSplits(archive[segment.id], c.offset, c.offset + |text|, segment.length);
  }

  lemma MovingAhead(c: Cursor, archive: map<nat, Bytes>, text: Bytes, limit: nat, partial: bool)
    requires Sound(c, archive) && !Ended(c) && Piece(Left(c, archive), text, limit)
    ensures var next := c.(offset := c.offset + |text|, partial := partial);
            && Sound(next, archive)
            && Rest(c, archive) == text + Rest(next, archive)
            && (TextLeft(c, archive) <==> TextLeft(next, archive))
  {
    hide Valid, From, TextFrom, Newlines, Left, Stored, Piece, Slice;
    PieceLeaves(Left(c, archive), text, limit);
    LeftMoves(c, archive, text, partial);
    var next := c.(offset := c.offset + |text|, partial := partial);
    SumsAssociate(text, Left(next, archive), From(c.segments, c.index + 1, archive));
  }

  /** The page is the next piece of what a cursor had left, and the cursor after it has the rest. */
  predicate NextPiece(c: Cursor, archive: map<nat, Bytes>, page: Page)
    requires Sound(c, archive)
  {
    && Sound(After(c, page), archive)
    && After(c, page).segments == c.segments
    && Rest(c, archive) == page.text + Rest(After(c, page), archive)
    && (TextLeft(c, archive) <==> TextLeft(After(c, page), archive))
  }

  lemma PieceIsNext(c: Cursor, archive: map<nat, Bytes>, page: Page, limit: nat)
    requires Sound(c, archive) && !Ended(c) && Piece(Left(c, archive), page.text, limit)
    ensures NextPiece(c, archive, page)
  {
    hide Advanced, Sound, Rest, Left, Piece, TextLeft;
    var next := c.(offset := c.offset + |page.text|, partial := page.endsMid);
    MovingAhead(c, archive, page.text, limit, page.endsMid);
    AdvancingSkipsNothing(next, archive);
  }

  /** Nothing is skipped and nothing is read twice, and what is not text stays to be read. */
  lemma PageIsNext(c: Cursor, archive: map<nat, Bytes>, content: Bytes, limit: nat, budget: nat)
    requires Sound(c, archive) && !Ended(c) && c.offset < c.segments[c.index].length
    requires Shows(content, c.segments[c.index], archive) && limit > 0 && budget > 3
    ensures var page := PageAt(c, content, limit, budget);
            page.Some? ==> NextPiece(c, archive, page.value)
  {
    hide PageAt, Sound, Left, Shows, NextPiece, Piece, PageOf, TextLeft;
    PageIsPiece(c, archive, content, limit, budget);
    if PageAt(c, content, limit, budget).Some? {
      PieceIsNext(c, archive, PageAt(c, content, limit, budget).value, limit);
    }
  }

  /** As much as the budget and the snapshot let through. */
  function Room(c: Cursor, budget: nat): nat
    requires !Ended(c) && c.offset <= c.segments[c.index].length
  {
    var left := c.segments[c.index].length - c.offset;
    if left < budget then left else budget
  }

  // The text of a page is the usable part up to its last newline within the limit, or all of it.
  lemma TextIsMaximal(s: Bytes, count: nat, limit: nat)
    requires Valid(s) && count <= |s| && limit > 0
    ensures var text := TextOf(s[..count], limit);
            && text.Some? && |text.value| <= count
            && (NEWLINE !in s[..count] ==> |text.value| + 3 >= count)
            && (NEWLINE !in s[..count] && count == |s| ==> |text.value| == count)
            && (NEWLINE in s[..count] ==>
                  && text.value != [] && text.value[|text.value| - 1] == NEWLINE
                  && (Newlines(text.value, |text.value|) == limit ||
                      NEWLINE !in s[|text.value|..count]))
  {
    hide Valid, Usable, Cut, Newlines;
    PrefixIsUsable(s, count);
    var v := Usable(s[..count]).value;
    var bytes := s[..v];
    assert s[..count][..v] == bytes;
    CutIsPageEnd(bytes, limit);
    var end := Cut(bytes, limit);
    CountInPrefix(bytes, end, end);
    NoNewlineInCut(s, count);
    assert forall k | v <= k < count :: s[k] != NEWLINE;
    assert NEWLINE in s[..count] <==> NEWLINE in bytes;
    assert NEWLINE in s[end..count] ==> NEWLINE in bytes[end..];
  }

  // What a cut leaves of a character has no newline in it.
  lemma NoNewlineInCut(s: Bytes, count: nat)
    requires Valid(s) && count <= |s|
    ensures Usable(s[..count]).Some?
    ensures forall k | Usable(s[..count]).value <= k < count :: s[k] != NEWLINE
  {
    hide Valid, First, ValidUpTo;
    PrefixIsUsable(s, count);
    var v := ValidUpTo(s[..count]);
    if v < count {
      assert Incomplete(s[..count][v..]);
      IncompleteHasNoNewline(s[..count][v..]);
      assert forall k | v <= k < count :: s[k] == s[..count][v..][k - v];
    }
  }

  lemma IncompleteHasNoNewline(s: Bytes)
    requires Incomplete(s)
    ensures forall k | 0 <= k < |s| :: s[k] != NEWLINE
  {}

  /**
    A page of text is as long as it may be: whole records up to the limit or up to the last newline
    there is room for; without any newline all there is room for, but for the start of a character.
   */
  lemma PageIsMaximal(c: Cursor, archive: map<nat, Bytes>, content: Bytes, limit: nat, budget: nat)
    requires Sound(c, archive) && !Ended(c) && TextLeft(c, archive)
    requires Shows(content, c.segments[c.index], archive) && limit > 0
    ensures var left, room := Left(c, archive), Room(c, budget);
            var page := PageAt(c, content, limit, budget);
            && room <= |left| && page.Some? && |page.value.text| <= room
            && (NEWLINE !in left[..room] ==> |page.value.text| + 3 >= room)
            && (NEWLINE !in left[..room] && room == |left| ==> |page.value.text| == room)
            && (NEWLINE in left[..room] ==>
                  && !page.value.endsMid
                  && (page.value.completed == limit ||
                      NEWLINE !in left[|page.value.text|..room]))
  {
    hide Shows, TextLeft, Left, Valid, PageAt, TextOf, Newlines, Stored;
    PageReadsOn(c, archive, content, limit, budget);
    TextIsValid(c, archive);
    assert Count(c, budget) == Room(c, budget);
    TextIsMaximal(Left(c, archive), Count(c, budget), limit);
  }

  // ---- Where a page is -----------------------------------------------------------------------

  /** Whether a place in a file is inside of a line. */
  predicate MidLine(content: Bytes, offset: nat) {
    0 < offset <= |content| && content[offset - 1] != NEWLINE
  }

  /**
    A cursor inside of a line says so; one that says so is inside of a line, unless a page before it
    was empty, which happens to text only if there is none left.
   */
  predicate Placed(c: Cursor, archive: map<nat, Bytes>)
    requires Sound(c, archive)
  {
    !Ended(c) ==>
      var mid := MidLine(archive[c.segments[c.index].id], c.offset);
      (mid ==> c.partial) && (c.partial && TextLeft(c, archive) ==> mid)
  }

  /** The page says where it is, and how it begins and ends. */
  predicate Located(page: Page, archive: map<nat, Bytes>, isText: bool) {
    && page.segment in archive
    && page.offset + |page.text| <= |archive[page.segment]|
    && page.text == Slice(archive[page.segment], page.offset, page.offset + |page.text|)
    && (MidLine(archive[page.segment], page.offset) ==> page.startsMid)
    && (page.startsMid && isText ==> MidLine(archive[page.segment], page.offset))
    && (page.endsMid <==> page.text == [] || page.text[|page.text| - 1] != NEWLINE)
  }

  // Advancing leaves a cursor where it is or goes to the beginning of a segment.
  lemma {:induction false} AdvancingGoesToBeginnings(c: Cursor)
    ensures Advanced(c) == c ||
            (Advanced(c).offset == 0 && !Advanced(c).partial && Advanced(c).segments == c.segments)
    decreases |c.segments| - c.index
  {
    if !Ended(c) && c.offset == c.segments[c.index].length {
      AdvancingGoesToBeginnings(c.(index := c.index + 1, offset := 0, partial := false));
    }
  }

  lemma AdvancedIsPlaced(c: Cursor, archive: map<nat, Bytes>)
    requires Sound(c, archive) && Placed(c, archive)
    ensures Sound(Advanced(c), archive) && Placed(Advanced(c), archive)
  {
    AdvancingSkipsNothing(c, archive);
    AdvancingGoesToBeginnings(c);
    hide Advanced, TextLeft, Rest;
  }

  lemma PieceIsSlice(c: Cursor, archive: map<nat, Bytes>, text: Bytes, limit: nat)
    requires Sound(c, archive) && !Ended(c) && Piece(Left(c, archive), text, limit)
    ensures var content := archive[c.segments[c.index].id];
            && c.offset + |text| <= |content|
            && text == Slice(content, c.offset, c.offset + |text|)
            && (text != [] ==>
                  (MidLine(content, c.offset + |text|) <==> text[|text| - 1] != NEWLINE))
  {
    hide Valid, Newlines;
    var segment := c.segments[c.index];
    SliceSplits(archive[segment.id], c.offset, c.offset + |text|, segment.length);
  }

  /** The page is where it says, and the cursor after it is placed as well. */
  lemma PageIsLocated(c: Cursor, archive: map<nat, Bytes>, content: Bytes, limit: nat, budget: nat)
    requires Sound(c, archive) && !Ended(c) && c.offset < c.segments[c.index].length
    requires Shows(content, c.segments[c.index], archive) && limit > 0 && budget > 3
    requires Placed(c, archive)
    ensures var page := PageAt(c, content, limit, budget);
            page.Some? ==>
              Located(page.value, archive, TextLeft(c, archive)) &&
              Sound(After(c, page.value), archive) && Placed(After(c, page.value), archive)
  {
    hide PageAt, Left, Shows, Piece, TextLeft, Newlines, Slice, Advanced;
    var page := PageAt(c, content, limit, budget);
    PageIsPiece(c, archive, content, limit, budget);
    if page.Some? {
      var text := page.value.text;
      PieceIsSlice(c, archive, text, limit);
      MovingAhead(c, archive, text, limit, page.value.endsMid);
      AdvancedIsPlaced(c.(offset := c.offset + |text|, partial := page.value.endsMid), archive);
    }
  }

  /** Without text a reading does not move on: the first page of a cut character is empty. */
  lemma CutCharacterIsEmpty(c: Cursor, archive: map<nat, Bytes>, content: Bytes, limit: nat,
                            budget: nat)
    requires Sound(c, archive) && !Ended(c) && Shows(content, c.segments[c.index], archive)
    requires 0 < |Left(c, archive)| <= budget && limit > 0
    requires First(Left(c, archive)) == 0 && Incomplete(Left(c, archive))
    ensures var page := PageAt(c, content, limit, budget);
            page.Some? && page.value.text == [] && After(c, page.value) == c.(partial := true)
  {
    hide Sound, Shows, Valid, PageAt, Newlines, Incomplete, First, Left;
    var left := Left(c, archive);
    PageReadsOn(c, archive, content, limit, budget);
    assert left[..Count(c, budget)] == left;
    assert left[0..] == left;
    assert Usable(left) == Some(0);
    assert left[..0][..Cut(left[..0], limit)] == [];
  }
}
