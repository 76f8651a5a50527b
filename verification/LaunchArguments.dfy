/**
  plugin/src/launch_arguments.cpp: an argument list becomes a Windows command line, and the command
  line becomes the quoted field of a debugger command. Both are read back by independent parsers:
  the documented backslash and quote rules of CommandLineToArgvW, and backslash unescaping.
 */
module LaunchArguments {
  import opened Options
  import opened Utf8

  const MAX_ARGUMENTS: nat := 32
  const MAX_ARGUMENT_BYTES: nat := 256
  const MAX_TOTAL_BYTES: nat := 512
  const MAX_RENDERED_BYTES: nat := 768
  const COMMAND_BUFFER_BYTES: nat := 1024

  const SPACE: Byte := 0x20
  const TAB: Byte := 0x09
  const QUOTE: Byte := 0x22
  const BACKSLASH: Byte := 0x5C
  const COMMA: Byte := 0x2C

  function Repeat(n: nat): (s: seq<Byte>)
    ensures |s| == n && forall i | 0 <= i < n :: s[i] == BACKSLASH
  {
    seq(n, _ => BACKSLASH)
  }

  // ---- Quoting -------------------------------------------------------------------------------

  /** What quoting appends for the rest of a value after `pending` unwritten backslashes. */
  function QuotedRest(value: seq<Byte>, pending: nat): seq<Byte> {
    if value == [] then Repeat(pending * 2) + [QUOTE]
    else if value[0] == BACKSLASH then QuotedRest(value[1..], pending + 1)
    else if value[0] == QUOTE then
      Repeat(pending * 2 + 1) + [QUOTE] + QuotedRest(value[1..], 0)
    else Repeat(pending) + [value[0]] + QuotedRest(value[1..], 0)
  }

  function Quoted(value: seq<Byte>): seq<Byte> {
    [QUOTE] + QuotedRest(value, 0)
  }

  method QuoteWindowsArgument(value: seq<Byte>) returns (result: seq<Byte>)
    ensures result == Quoted(value)
  {
    result := [QUOTE];
    var backslashes := 0;
    assert value[0..] == value;
    QuotedEnds(value);
    hide QuotedRest, Repeat;
    for i := 0 to |value|
      invariant result + QuotedRest(value[i..], backslashes) == Quoted(value)
    {
      var character := value[i];
      QuotedStep(value, i, backslashes, result);
      if character == BACKSLASH {
        backslashes := backslashes + 1;
        continue;
      }
      if character == QUOTE {
        result := result + Repeat(backslashes * 2 + 1) + [QUOTE];
      } else {
        result := result + Repeat(backslashes) + [character];
      }
      backslashes := 0;
    }
    result := result + Repeat(backslashes * 2) + [QUOTE];
  }

  lemma QuotedStep(value: seq<Byte>, i: nat, pending: nat, written: seq<Byte>)
    requires i < |value|
    ensures written + QuotedRest(value[i..], pending) ==
            if value[i] == BACKSLASH then written + QuotedRest(value[i + 1..], pending + 1)
            else if value[i] == QUOTE then
              written + Repeat(pending * 2 + 1) + [QUOTE] + QuotedRest(value[i + 1..], 0)
            else written + Repeat(pending) + [value[i]] + QuotedRest(value[i + 1..], 0)
  {
    assert value[i..][1..] == value[i + 1..];
    hide Repeat;
  }

  lemma QuotedEnds(value: seq<Byte>)
    ensures forall pending: nat, written: seq<Byte> ::
              written + QuotedRest(value[|value|..], pending) ==
              written + Repeat(pending * 2) + [QUOTE]
  {
  }

  // ---- Which lists are rendered --------------------------------------------------------------

  /** No C0 or C1 control character and no delete. */
  predicate NoControls(s: seq<Byte>)
    requires Valid(s)
  {
    s == [] ||
    var code := Decode(s);
    code > 0x1F && !(0x7F <= code <= 0x9F) && NoControls(s[First(s)..])
  }

  predicate ValidLaunchArgument(value: seq<Byte>) {
    |value| <= MAX_ARGUMENT_BYTES && Valid(value) && NoControls(value)
  }

  function TotalBytes(arguments: seq<seq<Byte>>): nat {
    if arguments == [] then 0
    else TotalBytes(arguments[..|arguments| - 1]) + |arguments[|arguments| - 1]|
  }

  /** The quoted arguments with one space between neighbours. */
  function Joined(arguments: seq<seq<Byte>>): seq<Byte> {
    if arguments == [] then []
    else if |arguments| == 1 then Quoted(arguments[0])
    else Quoted(arguments[0]) + [SPACE] + Joined(arguments[1..])
  }

  predicate Renderable(arguments: seq<seq<Byte>>) {
    && |arguments| <= MAX_ARGUMENTS
    && (forall a | a in arguments :: ValidLaunchArgument(a))
    && TotalBytes(arguments) <= MAX_TOTAL_BYTES
    && |Joined(arguments)| <= MAX_RENDERED_BYTES
  }

  lemma {:induction false} JoinedExtends(arguments: seq<seq<Byte>>, last: seq<Byte>)
    ensures Joined(arguments + [last]) ==
            if arguments == [] then Quoted(last) else Joined(arguments) + [SPACE] + Quoted(last)
  {
    hide Quoted, QuotedRest;
    if |arguments| == 1 {
      assert (arguments + [last])[1..] == [last];
    } else if |arguments| > 1 {
      JoinedExtends(arguments[1..], last);
      assert (arguments + [last])[1..] == arguments[1..] + [last];
    }
  }

  // Totals and rendered sizes only grow, so a prefix over a limit settles the list.
  lemma {:induction false} PrefixIsSmaller(arguments: seq<seq<Byte>>, i: nat)
    requires i <= |arguments|
    ensures TotalBytes(arguments[..i]) <= TotalBytes(arguments)
    ensures |Joined(arguments[..i])| <= |Joined(arguments)|
    decreases |arguments| - i
  {
    if i == |arguments| {
      assert arguments[..i] == arguments;
    } else {
      PrefixIsSmaller(arguments, i + 1);
      assert arguments[..i + 1][..i] == arguments[..i];
      assert arguments[..i + 1] == arguments[..i] + [arguments[i]];
      JoinedExtends(arguments[..i], arguments[i]);
    }
  }

  lemma {:induction false} JoinedIsEmpty(arguments: seq<seq<Byte>>)
    ensures Joined(arguments) == [] <==> arguments == []
  {
  }

  /** What is rendered of the first i arguments, and what the next one adds to it. */
  lemma RenderStep(arguments: seq<seq<Byte>>, i: nat)
    requires i < |arguments|
    ensures TotalBytes(arguments[..i + 1]) == TotalBytes(arguments[..i]) + |arguments[i]|
    ensures var text := Joined(arguments[..i]);
            Joined(arguments[..i + 1]) ==
            (if text != [] then text + [SPACE] else text) + Quoted(arguments[i])
    ensures TotalBytes(arguments[..i + 1]) <= TotalBytes(arguments)
    ensures |Joined(arguments[..i + 1])| <= |Joined(arguments)|
  {
    var front, last := arguments[..i], arguments[i];
    assert arguments[..i + 1] == front + [last];
    assert (front + [last])[..i] == front;
    JoinedIsEmpty(front);
    JoinedExtends(front, last);
    PrefixIsSmaller(arguments, i + 1);
    hide Joined, Quoted;
  }

  /** The first i arguments are within the limits, and this is what has been rendered of them. */
  predicate RenderedTo(arguments: seq<seq<Byte>>, i: nat, inputBytes: nat, text: seq<Byte>) {
    && i <= |arguments|
    && inputBytes == TotalBytes(arguments[..i]) <= MAX_TOTAL_BYTES
    && text == Joined(arguments[..i]) && |text| <= MAX_RENDERED_BYTES
    && forall k | 0 <= k < i :: ValidLaunchArgument(arguments[k])
  }

  /** One turn of the loop: the next argument either fits or settles that nothing is rendered. */
  lemma RenderTurn(arguments: seq<seq<Byte>>, i: nat, inputBytes: nat, text: seq<Byte>)
    requires RenderedTo(arguments, i, inputBytes, text) && i < |arguments|
    ensures var argument := arguments[i];
            var longer := (if text != [] then text + [SPACE] else text) + Quoted(argument);
            if ValidLaunchArgument(argument) && inputBytes + |argument| <= MAX_TOTAL_BYTES &&
               |longer| <= MAX_RENDERED_BYTES
            then RenderedTo(arguments, i + 1, inputBytes + |argument|, longer)
            else !Renderable(arguments)
  {
    RenderStep(arguments, i);
    hide Joined, Quoted, TotalBytes, ValidLaunchArgument;
  }

  lemma RenderedAll(arguments: seq<seq<Byte>>, inputBytes: nat, text: seq<Byte>)
    requires RenderedTo(arguments, |arguments|, inputBytes, text) && |arguments| <= MAX_ARGUMENTS
    ensures Renderable(arguments) && text == Joined(arguments)
  {
    assert arguments[..|arguments|] == arguments;
    hide Joined, TotalBytes, ValidLaunchArgument;
  }

  method RenderWindowsArguments(arguments: seq<seq<Byte>>) returns (result: Option<seq<Byte>>)
    ensures result.Some? <==>
              && |arguments| <= 32 && TotalBytes(arguments) <= 512 && |Joined(arguments)| <= 768
              && forall a | a in arguments :: |a| <= 256 && Valid(a) && NoControls(a)
    ensures result.Some? ==> result.value == Joined(arguments)
  {
    assert Renderable(arguments) <==>
             && |arguments| <= 32 && TotalBytes(arguments) <= 512 && |Joined(arguments)| <= 768
             && forall a | a in arguments :: |a| <= 256 && Valid(a) && NoControls(a);
    if |arguments| > MAX_ARGUMENTS {
      return None;
    }
    assert RenderedTo(arguments, 0, 0, []);
    hide Joined, Quoted, ValidLaunchArgument, RenderedTo, Renderable, TotalBytes, NoControls, Valid;
    var inputBytes: nat, text := 0, [];
    for i := 0 to |arguments|
      invariant inputBytes <= MAX_TOTAL_BYTES
      invariant RenderedTo(arguments, i, inputBytes, text)
    {
      var argument := arguments[i];
      RenderTurn(arguments, i, inputBytes, text);
      if !ValidLaunchArgument(argument) || |argument| > MAX_TOTAL_BYTES - inputBytes {
        return None;
      }
      inputBytes := inputBytes + |argument|;
      var quoted := QuoteWindowsArgument(argument);
      if text != [] {
        text := text + [SPACE];
      }
      text := text + quoted;
      if |text| > MAX_RENDERED_BYTES {
        return None;
      }
    }
    RenderedAll(arguments, inputBytes, text);
    return Some(text);
  }

  /** The bytes counted are those of all arguments together. */
  lemma {:induction false} TotalIsSum(a: seq<seq<Byte>>, b: seq<seq<Byte>>)
    ensures TotalBytes(a + b) == TotalBytes(a) + TotalBytes(b)
    ensures |a| == 1 ==> TotalBytes(a) == |a[0]|
  {
    if b == [] {
      assert a + b == a;
    } else {
      TotalIsSum(a, b[..|b| - 1]);
      assert (a + b)[..|a + b| - 1] == a + b[..|b| - 1];
    }
  }

  /** Text is free of controls if and only if none of its characters is a C0 or C1 control or delete. */
  lemma {:induction false} ControlsExactly(cs: seq<nat>)
    requires forall c | c in cs :: Scalar(c)
    ensures Valid(EncodeAll(cs))
    ensures NoControls(EncodeAll(cs)) <==>
            forall c | c in cs :: !(c <= 0x1F) && !(0x7F <= c <= 0x9F)
  {
    hide First, Decode, Encode, Valid, NoControls;
    EncodingIsValid(cs);
    if cs == [] {
      NoControlsUnfolds([]);
    } else {
      assert cs[0] in cs;
      assert forall c :: c in cs <==> c == cs[0] || c in cs[1..];
      var s, rest := EncodeAll(cs), EncodeAll(cs[1..]);
      ControlsExactly(cs[1..]);
      assert s == Encode(cs[0]) + rest;
      DecodesFirst(cs[0], rest);
      assert s[First(s)..] == rest;
      NoControlsUnfolds(s);
    }
  }

  lemma NoControlsUnfolds(s: seq<Byte>)
    requires Valid(s)
    ensures s == [] ==> NoControls(s)
    ensures s != [] ==>
              First(s) > 0 && Valid(s[First(s)..]) &&
              (NoControls(s) <==>
                 Decode(s) > 0x1F && !(0x7F <= Decode(s) <= 0x9F) && NoControls(s[First(s)..]))
  {
    hide First, Decode;
  }

  lemma DecodesFirst(c: nat, rest: seq<Byte>)
    requires Scalar(c)
    ensures First(Encode(c) + rest) == |Encode(c)| && Decode(Encode(c) + rest) == c
  {
    EncodingIsFirst(c, rest);
    hide First;
  }

  // ---- Splitting as CommandLineToArgvW does --------------------------------------------------

  function Backslashes(s: seq<Byte>): (n: nat)
    ensures n <= |s| && forall i | 0 <= i < n :: s[i] == BACKSLASH
    ensures n < |s| ==> s[n] != BACKSLASH
  {
    if s == [] || s[0] != BACKSLASH then 0 else 1 + Backslashes(s[1..])
  }

  predicate Blank(b: Byte) {
    b == SPACE || b == TAB
  }

  datatype Argument = Argument(text: seq<Byte>, rest: seq<Byte>)

  /**
    One argument: 2n backslashes before a quote stand for n and the quote toggles quoting, 2n+1 stand
    for n and a literal quote, other backslashes are literal, and a blank outside quotes ends it.
   */
  function ReadArgument(s: seq<Byte>, quoting: bool): (a: Argument)
    ensures |a.rest| <= |s|
    ensures a.rest != [] ==> Blank(a.rest[0])
    decreases |s|
  {
    var n := Backslashes(s);
    if n < |s| && s[n] == QUOTE then
      var tail := ReadArgument(s[n + 1..], if n % 2 == 0 then !quoting else quoting);
      var literal := if n % 2 == 0 then [] else [QUOTE];
      Argument(Repeat(n / 2) + literal + tail.text, tail.rest)
    else if n > 0 then
      var tail := ReadArgument(s[n..], quoting);
      Argument(Repeat(n) + tail.text, tail.rest)
    else if s == [] || (!quoting && Blank(s[0])) then Argument([], s)
    else
      var tail := ReadArgument(s[1..], quoting);
      Argument([s[0]] + tail.text, tail.rest)
  }

  function SkipBlanks(s: seq<Byte>): (r: seq<Byte>)
    ensures |r| <= |s|
    ensures r != [] ==> !Blank(r[0])
  {
    if s != [] && Blank(s[0]) then SkipBlanks(s[1..]) else s
  }

  function Split(s: seq<Byte>): seq<seq<Byte>>
    decreases |s|
  {
    var start := SkipBlanks(s);
    if start == [] then []
    else
      var a := ReadArgument(start, false);
      if |a.rest| < |start| then [a.text] + Split(a.rest) else [a.text]
  }

  // ---- Round trip ----------------------------------------------------------------------------

  lemma {:induction false} CountBackslashes(n: nat, rest: seq<Byte>)
    requires rest == [] || rest[0] != BACKSLASH
    ensures Backslashes(Repeat(n) + rest) == n
  {
    if n == 0 {
      assert Repeat(0) + rest == rest;
    } else {
      CountBackslashes(n - 1, rest);
      assert (Repeat(n) + rest)[1..] == Repeat(n - 1) + rest;
    }
  }

  lemma ReadAfterBackslashes(n: nat, rest: seq<Byte>, quoting: bool)
    requires rest != [] && rest[0] == QUOTE
    ensures var a := ReadArgument(Repeat(n) + rest, quoting);
            var tail := ReadArgument(rest[1..], if n % 2 == 0 then !quoting else quoting);
            a == Argument(Repeat(n / 2) + (if n % 2 == 0 then [] else [QUOTE]) + tail.text,
                          tail.rest)
  {
    CountBackslashes(n, rest);
    var s := Repeat(n) + rest;
    assert s[n] == QUOTE && s[n + 1..] == rest[1..];
  }

  // Any other byte is taken as it is inside quotes.
  lemma ReadPlain(c: Byte, rest: seq<Byte>)
    requires c != BACKSLASH && c != QUOTE
    ensures var tail := ReadArgument(rest, true);
            ReadArgument([c] + rest, true) == Argument([c] + tail.text, tail.rest)
  {
    assert ([c] + rest)[1..] == rest;
    assert Backslashes([c] + rest) == 0;
  }

  lemma ReadRun(n: nat, rest: seq<Byte>)
    requires n > 0 && rest != [] && rest[0] != BACKSLASH && rest[0] != QUOTE
    ensures var tail := ReadArgument(rest, true);
            ReadArgument(Repeat(n) + rest, true) == Argument(Repeat(n) + tail.text, tail.rest)
  {
    CountBackslashes(n, rest);
    assert (Repeat(n) + rest)[n..] == rest;
  }

  lemma ReadLiteral(n: nat, c: Byte, rest: seq<Byte>)
    requires c != BACKSLASH && c != QUOTE
    ensures var tail := ReadArgument(rest, true);
            ReadArgument(Repeat(n) + ([c] + rest), true) ==
            Argument(Repeat(n) + ([c] + tail.text), tail.rest)
  {
    hide ReadArgument;
    ReadPlain(c, rest);
    if n == 0 {
      assert Repeat(0) + ([c] + rest) == [c] + rest;
      var text := ReadArgument(rest, true).text;
      assert Repeat(0) + ([c] + text) == [c] + text;
    } else {
      ReadRun(n, [c] + rest);
    }
  }

  lemma QuotedUnfolds(value: seq<Byte>, pending: nat, tail: seq<Byte>)
    ensures QuotedRest(value, pending) + tail ==
            if value == [] then Repeat(pending * 2) + ([QUOTE] + tail)
            else if value[0] == BACKSLASH then QuotedRest(value[1..], pending + 1) + tail
            else if value[0] == QUOTE then
              Repeat(pending * 2 + 1) + ([QUOTE] + (QuotedRest(value[1..], 0) + tail))
            else Repeat(pending) + ([value[0]] + (QuotedRest(value[1..], 0) + tail))
  {
  }

  // Backslashes held back, then the rest of the value.
  lemma HeldBack(value: seq<Byte>, pending: nat)
    ensures Repeat(0) + value == value
    ensures value != [] && value[0] == BACKSLASH ==>
              Repeat(pending + 1) + value[1..] == Repeat(pending) + value
  {
  }

  lemma HeadRejoins(front: seq<Byte>, value: seq<Byte>)
    requires value != []
    ensures front + [value[0]] + value[1..] == front + value
    ensures front + ([value[0]] + value[1..]) == front + value
  {
    assert [value[0]] + value[1..] == value;
  }

  lemma TailOfOne(c: Byte, rest: seq<Byte>)
    ensures ([c] + rest)[1..] == rest
  {
  }

  lemma ReadEscapedQuote(value: seq<Byte>, pending: nat, rest: seq<Byte>, tail: seq<Byte>)
    requires value != [] && value[0] == QUOTE
    requires ReadArgument(rest, true) == Argument(value[1..], tail)
    ensures ReadArgument(Repeat(pending * 2 + 1) + ([QUOTE] + rest), true) ==
            Argument(Repeat(pending) + value, tail)
  {
    hide ReadArgument, Repeat;
    ReadAfterBackslashes(pending * 2 + 1, [QUOTE] + rest, true);
    TailOfOne(QUOTE, rest);
    HeadRejoins(Repeat(pending), value);
  }

  lemma ReadOrdinary(value: seq<Byte>, pending: nat, rest: seq<Byte>, tail: seq<Byte>)
    requires value != [] && value[0] != QUOTE && value[0] != BACKSLASH
    requires ReadArgument(rest, true) == Argument(value[1..], tail)
    ensures ReadArgument(Repeat(pending) + ([value[0]] + rest), true) ==
            Argument(Repeat(pending) + value, tail)
  {
    hide ReadArgument, Repeat;
    ReadLiteral(pending, value[0], rest);
    HeadRejoins(Repeat(pending), value);
  }

  /** Reading inside the quotes gives the pending backslashes and the rest of the value back. */
  lemma {:induction false} ReadQuoted(value: seq<Byte>, pending: nat, tail: seq<Byte>)
    requires tail == [] || tail[0] == SPACE
    ensures ReadArgument(QuotedRest(value, pending) + tail, true) ==
            Argument(Repeat(pending) + value, tail)
  {
    hide ReadArgument, QuotedRest, Repeat, Backslashes;
    QuotedUnfolds(value, pending, tail);
    if value == [] {
      var closing := [QUOTE] + tail;
      ReadAfterBackslashes(pending * 2, closing, true);
      assert closing[1..] == tail;
      ReadEnds(tail);
    } else if value[0] == BACKSLASH {
      ReadQuoted(value[1..], pending + 1, tail);
      HeldBack(value, pending);
    } else {
      var rest := QuotedRest(value[1..], 0) + tail;
      ReadQuoted(value[1..], 0, tail);
      HeldBack(value[1..], 0);
      if value[0] == QUOTE {
        ReadEscapedQuote(value, pending, rest, tail);
      } else {
        ReadOrdinary(value, pending, rest, tail);
      }
    }
  }

  lemma ReadEnds(tail: seq<Byte>)
    requires tail == [] || tail[0] == SPACE
    ensures ReadArgument(tail, false) == Argument([], tail)
  {
  }

  lemma ReadOpens(value: seq<Byte>, tail: seq<Byte>)
    requires tail == [] || tail[0] == SPACE
    ensures ReadArgument(Quoted(value) + tail, false) == Argument(value, tail)
  {
    hide ReadArgument, QuotedRest;
    var inside := QuotedRest(value, 0) + tail;
    assert Quoted(value) + tail == Repeat(0) + ([QUOTE] + inside);
    ReadAfterBackslashes(0, [QUOTE] + inside, false);
    assert ([QUOTE] + inside)[1..] == inside;
    ReadQuoted(value, 0, tail);
    assert Repeat(0) + value == value;
  }

  /** Splitting a rendered command line gives back the argument list, whatever its bytes. */
  lemma {:induction false} SplitJoined(arguments: seq<seq<Byte>>)
    ensures Split(Joined(arguments)) == arguments
  {
    hide ReadArgument, QuotedRest;
    if arguments != [] {
      var tail := if |arguments| == 1 then [] else [SPACE] + Joined(arguments[1..]);
      var all := Quoted(arguments[0]) + tail;
      assert Joined(arguments) == all;
      ReadOpens(arguments[0], tail);
      SplitJoined(arguments[1..]);
      SplitSkipsBlank(Joined(arguments[1..]));
      assert all[0] == QUOTE;
      assert Split(all) == [arguments[0]] + Split(tail);
    }
  }

  lemma SplitSkipsBlank(s: seq<Byte>)
    ensures Split([SPACE] + s) == Split(s)
  {
    hide ReadArgument;
    assert ([SPACE] + s)[1..] == s;
    assert SkipBlanks([SPACE] + s) == SkipBlanks(s);
  }

  // ---- The debugger command ------------------------------------------------------------------

  function Escaped(value: seq<Byte>): seq<Byte> {
    if value == [] then []
    else
      (if value[0] == BACKSLASH || value[0] == QUOTE then [BACKSLASH, value[0]] else [value[0]]) +
      Escaped(value[1..])
  }

  method EscapeX64dbgCommandArgument(value: seq<Byte>) returns (result: seq<Byte>)
    ensures result == Escaped(value)
  {
    hide Escaped;
    result := [];
    assert value[0..] == value;
    for i := 0 to |value|
      invariant result + Escaped(value[i..]) == Escaped(value)
    {
      EscapedStep(value, i, result);
      if value[i] == BACKSLASH || value[i] == QUOTE {
        result := result + [BACKSLASH];
      }
      result := result + [value[i]];
    }
    EscapedEnds(value, result);
  }

  lemma EscapedStep(value: seq<Byte>, i: nat, written: seq<Byte>)
    requires i < |value|
    ensures written + Escaped(value[i..]) ==
            if value[i] == BACKSLASH || value[i] == QUOTE
            then written + [BACKSLASH] + [value[i]] + Escaped(value[i + 1..])
            else written + [value[i]] + Escaped(value[i + 1..])
  {
    assert value[i..][1..] == value[i + 1..];
  }

  lemma EscapedEnds(value: seq<Byte>, written: seq<Byte>)
    ensures written + Escaped(value[|value|..]) == written
  {
  }

  /** No shorter text of a quoted field reads as the same value. */
  lemma {:induction false} EscapedIsShortest(t: seq<Byte>)
    requires ReadField(t).Some?
    ensures var a := ReadField(t).value; |Escaped(a.text)| + 1 + |a.rest| <= |t|
  {
    if t[0] == QUOTE {
    } else if t[0] == BACKSLASH {
      EscapedIsShortest(t[2..]);
      assert ReadField(t).value.text[1..] == ReadField(t[2..]).value.text;
    } else {
      EscapedIsShortest(t[1..]);
      assert ReadField(t).value.text[1..] == ReadField(t[1..]).value.text;
    }
  }

  // scriptcmd init
  const COMMAND: seq<Byte> :=
    [0x73, 0x63, 0x72, 0x69, 0x70, 0x74, 0x63, 0x6D, 0x64, 0x20, 0x69, 0x6E, 0x69, 0x74, 0x20]

  const SEPARATOR: seq<Byte> := [COMMA, SPACE]

  function Field(value: seq<Byte>): seq<Byte> {
    [QUOTE] + Escaped(value) + [QUOTE]
  }

  function InitCommand(executable: seq<Byte>, commandLine: seq<Byte>, directory: seq<Byte>)
    : seq<Byte>
  {
    COMMAND + (Field(executable) + (SEPARATOR + (Field(commandLine) +
                                                 (SEPARATOR + Field(directory)))))
  }

  lemma Regroup(a: seq<Byte>, b: seq<Byte>, c: seq<Byte>)
    ensures COMMAND + a + SEPARATOR + b + SEPARATOR + c ==
            COMMAND + (a + (SEPARATOR + (b + (SEPARATOR + c))))
  {
  }

  method BuildInitCommand(executable: seq<Byte>, commandLine: seq<Byte>, directory: seq<Byte>)
    returns (result: Option<seq<Byte>>)
    ensures var text := InitCommand(executable, commandLine, directory);
            result == if |text| < 1024 then Some(text) else None
  {
    hide Escaped;
    var a := EscapeX64dbgCommandArgument(executable);
    var b := EscapeX64dbgCommandArgument(commandLine);
    var c := EscapeX64dbgCommandArgument(directory);
    var text := COMMAND + [QUOTE] + a + [QUOTE] + SEPARATOR + [QUOTE] + b + [QUOTE] + SEPARATOR +
                [QUOTE] + c + [QUOTE];
    Regroup([QUOTE] + a + [QUOTE], [QUOTE] + b + [QUOTE], [QUOTE] + c + [QUOTE]);
    assert text == COMMAND + ([QUOTE] + a + [QUOTE]) + SEPARATOR + ([QUOTE] + b + [QUOTE]) +
                   SEPARATOR + ([QUOTE] + c + [QUOTE]);
    if |text| >= COMMAND_BUFFER_BYTES {
      return None;
    }
    return Some(text);
  }

  /** The text of a quoted field up to its closing quote, and what follows it. */
  function ReadField(s: seq<Byte>): (a: Option<Argument>)
    ensures a.Some? ==> |a.value.rest| < |s|
  {
    if s == [] then None
    else if s[0] == QUOTE then Some(Argument([], s[1..]))
    else if s[0] == BACKSLASH then
      if |s| < 2 then None else Prefixed(s[1], ReadField(s[2..]))
    else Prefixed(s[0], ReadField(s[1..]))
  }

  function Prefixed(b: Byte, a: Option<Argument>): Option<Argument> {
    if a.None? then None else Some(Argument([b] + a.value.text, a.value.rest))
  }

  predicate StartsWith(s: seq<Byte>, prefix: seq<Byte>) {
    |prefix| <= |s| && s[..|prefix|] == prefix
  }

  /** Reads `prefix`, an opening quote and one field. */
  function After(s: seq<Byte>, prefix: seq<Byte>): Option<Argument> {
    if StartsWith(s, prefix + [QUOTE]) then ReadField(s[|prefix| + 1..]) else None
  }

  /** The three fields of an init command, if that is what the text is. */
  function ParseInit(s: seq<Byte>): Option<(seq<Byte>, seq<Byte>, seq<Byte>)> {
    var a := After(s, COMMAND);
    if a.None? then None
    else
      var b := After(a.value.rest, SEPARATOR);
      if b.None? then None
      else
        var c := After(b.value.rest, SEPARATOR);
        if c.None? || c.value.rest != [] then None
        else Some((a.value.text, b.value.text, c.value.text))
  }

  lemma EscapedUnfolds(value: seq<Byte>, tail: seq<Byte>)
    ensures Escaped(value) + tail ==
            if value == [] then tail
            else if value[0] == BACKSLASH || value[0] == QUOTE then
              [BACKSLASH] + ([value[0]] + (Escaped(value[1..]) + tail))
            else [value[0]] + (Escaped(value[1..]) + tail)
  {
  }

  lemma ReadFieldEscaped(b: Byte, rest: seq<Byte>)
    ensures ReadField([BACKSLASH] + ([b] + rest)) == Prefixed(b, ReadField(rest))
    ensures b != BACKSLASH && b != QUOTE ==>
              ReadField([b] + rest) == Prefixed(b, ReadField(rest))
  {
    assert ([BACKSLASH] + ([b] + rest))[2..] == rest && ([b] + rest)[1..] == rest;
  }

  lemma {:induction false} ReadEscaped(value: seq<Byte>, tail: seq<Byte>)
    ensures ReadField(Escaped(value) + ([QUOTE] + tail)) == Some(Argument(value, tail))
  {
    hide Escaped;
    EscapedUnfolds(value, [QUOTE] + tail);
    if value == [] {
      assert ([QUOTE] + tail)[1..] == tail;
    } else {
      ReadEscaped(value[1..], tail);
      ReadFieldEscaped(value[0], Escaped(value[1..]) + ([QUOTE] + tail));
      assert [value[0]] + value[1..] == value;
    }
  }

  lemma AfterField(prefix: seq<Byte>, value: seq<Byte>, tail: seq<Byte>)
    ensures After(prefix + (Field(value) + tail), prefix) == Some(Argument(value, tail))
  {
    hide ReadField, Escaped;
    var s := prefix + (Field(value) + tail);
    assert s == prefix + [QUOTE] + (Escaped(value) + ([QUOTE] + tail));
    assert s[|prefix| + 1..] == Escaped(value) + ([QUOTE] + tail);
    ReadEscaped(value, tail);
  }

  /** The three fields are recovered, so no two triples share a command. */
  lemma InitRoundTrip(executable: seq<Byte>, commandLine: seq<Byte>, directory: seq<Byte>)
    ensures ParseInit(InitCommand(executable, commandLine, directory)) ==
            Some((executable, commandLine, directory))
  {
    hide After, Field;
    var last := SEPARATOR + Field(directory);
    var middle := SEPARATOR + (Field(commandLine) + last);
    AfterField(COMMAND, executable, middle);
    AfterField(SEPARATOR, commandLine, last);
    AfterField(SEPARATOR, directory, []);
    assert Field(directory) + [] == Field(directory);
  }

  /** End to end: the debugger's second field still splits into the requested arguments. */
  lemma LaunchRoundTrip(executable: seq<Byte>, arguments: seq<seq<Byte>>, directory: seq<Byte>)
    ensures var parsed := ParseInit(InitCommand(executable, Joined(arguments), directory));
            parsed.Some? && Split(parsed.value.1) == arguments
  {
    InitRoundTrip(executable, Joined(arguments), directory);
    SplitJoined(arguments);
  }
}
