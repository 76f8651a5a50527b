/**
  CompileConditionalExpression of plugin/src/breakpoint_policy.cpp: a list of predicates becomes the
  text of a debugger condition. The text is parsed back by a reader of the small language it is
  written in and evaluated, for every state of the debuggee.
 */
module Conditions {
  import opened Options

  datatype Mode = All | Any

  datatype Source = RegisterValue | ThreadId | HitCount

  datatype Operator = Equal | NotEqual | Less | LessEqual | Greater | GreaterEqual | MultipleOf

  datatype Predicate = Predicate(source: Source, operation: Operator, registerName: string,
                                 value: nat)

  datatype Spec = Spec(mode: Mode, predicates: seq<Predicate>)

  const MAX_PREDICATES: nat := 4
  const MAX_U32: nat := 0xFFFF_FFFF
  const MAX_U64: nat := 0xFFFF_FFFF_FFFF_FFFF

  // MAX_CONDITIONAL_EXPR_SIZE comes from a debugger header that is not part of this model.
  const MAX_EXPRESSION: nat := 256

  const REGISTERS: set<string> :=
    {"cax", "cbx", "ccx", "cdx", "csi", "cdi", "cbp", "csp", "cip"}

  predicate PortableRegister(name: string) {
    name in REGISTERS
  }

  // ---- Meaning -------------------------------------------------------------------------------

  /** What a condition can observe when the breakpoint is hit. */
  datatype Debuggee = Debuggee(register: string -> nat, threadId: nat, hits: nat)

  function Observed(source: Source, name: string, d: Debuggee): nat {
    match source
    case RegisterValue => d.register(name)
    case ThreadId => d.threadId
    case HitCount => d.hits
  }

  predicate Compares(left: nat, operation: Operator, right: nat)
  {
    match operation
    case Equal => left == right
    case NotEqual => left != right
    case Less => left < right
    case LessEqual => left <= right
    case Greater => left > right
    case GreaterEqual => left >= right
    case MultipleOf => right != 0 && left % right == 0
  }

  /** Which predicates compile on a build whose addresses end at `top`. */
  predicate Compilable(p: Predicate, top: nat) {
    match p.source
    case RegisterValue =>
      PortableRegister(p.registerName) && p.operation != MultipleOf && p.value <= top
    case ThreadId =>
      p.registerName == "" && (p.operation == Equal || p.operation == NotEqual) &&
      p.value <= MAX_U32
    case HitCount =>
      p.registerName == "" && p.value != 0 && p.value <= MAX_U32
  }

  predicate Accepted(spec: Spec, top: nat) {
    0 < |spec.predicates| <= MAX_PREDICATES &&
    forall i | 0 <= i < |spec.predicates| :: Compilable(spec.predicates[i], top)
  }

  predicate Holds(p: Predicate, d: Debuggee) {
    Compares(Observed(p.source, p.registerName, d), p.operation, p.value)
  }

  predicate Meaning(mode: Mode, predicates: seq<Predicate>, d: Debuggee) {
    if mode == All then forall i | 0 <= i < |predicates| :: Holds(predicates[i], d)
    else exists i | 0 <= i < |predicates| :: Holds(predicates[i], d)
  }

  // ---- Compilation ---------------------------------------------------------------------------

  function Digit(n: nat): char
    requires n < 16
  {
    "0123456789abcdef"[n]
  }

  function HexDigits(value: nat): (s: string)
    ensures s != ""
  {
    if value < 16 then [Digit(value)] else HexDigits(value / 16) + [Digit(value % 16)]
  }

  function HexConstant(value: nat): string {
    "0x" + HexDigits(value)
  }

  function Token(operation: Operator): string {
    match operation
    case Equal => "=="
    case NotEqual => "!="
    case Less => "<"
    case LessEqual => "<="
    case Greater => ">"
    case GreaterEqual => ">="
    case MultipleOf => "%"
  }

  function SourceText(p: Predicate): string {
    match p.source
    case RegisterValue => p.registerName
    case ThreadId => "tid()"
    case HitCount => "$breakpointcounter"
  }

  function TermText(p: Predicate): string {
    if p.operation == MultipleOf
    then "((" + (SourceText(p) + ("%" + (HexConstant(p.value) + ")==0)")))
    else "(" + (SourceText(p) + (Token(p.operation) + (HexConstant(p.value) + ")")))
  }

  function Connective(mode: Mode): string {
    if mode == All then "&&" else "||"
  }

  function Joined(mode: Mode, predicates: seq<Predicate>): string {
    if predicates == [] then ""
    else if |predicates| == 1 then TermText(predicates[0])
    else TermText(predicates[0]) + (Connective(mode) + Joined(mode, predicates[1..]))
  }

  function Compiled(spec: Spec): string {
    Joined(spec.mode, spec.predicates)
  }

  // The switch over the predicate's source.
  method SourceOf(p: Predicate, top: nat) returns (source: Option<string>)
    ensures source == if Compilable(p, top) then Some(SourceText(p)) else None
  {
    match p.source {
      case RegisterValue =>
        if !PortableRegister(p.registerName) || p.operation == MultipleOf || p.value > top {
          return None;
        }
        return Some(p.registerName);
      case ThreadId =>
        if p.registerName != "" || (p.operation != Equal && p.operation != NotEqual) ||
           p.value > MAX_U32 {
          return None;
        }
        return Some("tid()");
      case HitCount =>
        if p.registerName != "" || p.value == 0 || p.value > MAX_U32 {
          return None;
        }
        return Some("$breakpointcounter");
    }
  }

  method CompileConditionalExpression(spec: Spec, top: nat) returns (result: Option<string>)
    requires top <= MAX_U64
    ensures result.Some? <==>
              && 1 <= |spec.predicates| <= 4
              && forall i | 0 <= i < |spec.predicates| :: Compilable(spec.predicates[i], top)
    ensures result.Some? ==> result.value == Compiled(spec)
    ensures result.Some? ==> |result.value| <= 150
  {
    hide Joined, HexConstant, TermText, Compilable, SourceText, Token;
    var n := |spec.predicates|;
    if n == 0 || n > MAX_PREDICATES {
      return None;
    }
    var expression := "";
    EmptyJoin(spec.mode);
    assert spec.predicates[..0] == [];
    for index := 0 to n
      invariant expression == Joined(spec.mode, spec.predicates[..index])
      invariant forall i | 0 <= i < index :: Compilable(spec.predicates[i], top)
    {
      var p := spec.predicates[index];
      var before := spec.predicates[..index];
      JoinedExtends(spec.mode, before, p);
      assert spec.predicates[..index + 1] == before + [p];
      if index != 0 {
        expression := expression + (if spec.mode == All then "&&" else "||");
      }
      var token := Token(p.operation);
      var source := SourceOf(p, top);
      if source.None? {
        return None;
      }
      var value := HexConstant(p.value);
      TermParts(p, expression);
      if p.operation == MultipleOf {
        expression := expression + "((" + source.value + "%" + value + ")==0)";
      } else {
        expression := expression + "(" + source.value + token + value + ")";
      }
      JoinedIsShort(spec.mode, spec.predicates[..index + 1], top);
      // Never taken: four terms cannot reach the limit.
      if |expression| >= MAX_EXPRESSION {
        return None;
      }
    }
    assert spec.predicates[..n] == spec.predicates;
    JoinedIsShort(spec.mode, spec.predicates, top);
    return Some(expression);
  }

  lemma TermParts(p: Predicate, written: string)
    ensures written + TermText(p) ==
            if p.operation == MultipleOf
            then written + "((" + SourceText(p) + "%" + HexConstant(p.value) + ")==0)"
            else written + "(" + SourceText(p) + Token(p.operation) + HexConstant(p.value) + ")"
  {
    hide HexConstant, SourceText, Token;
  }

  lemma EmptyJoin(mode: Mode)
    ensures Joined(mode, []) == ""
  {
  }

  lemma {:induction false} JoinedExtends(mode: Mode, predicates: seq<Predicate>, p: Predicate)
    ensures Joined(mode, predicates + [p]) ==
            if predicates == [] then TermText(p)
            else Joined(mode, predicates) + Connective(mode) + TermText(p)
  {
    hide TermText, Connective;
    var longer := predicates + [p];
    if predicates == [] {
      assert longer == [p];
    } else {
      var tail := predicates[1..];
      assert longer[0] == predicates[0] && longer[1..] == tail + [p];
      JoinedExtends(mode, tail, p);
      Regrouped(TermText(predicates[0]), Connective(mode), Joined(mode, tail), TermText(p));
    }
  }

  lemma Regrouped(first: string, connective: string, middle: string, last: string)
    ensures first + (connective + (middle + connective + last)) ==
            first + (connective + middle) + connective + last
    ensures first + (connective + last) == first + connective + last
  {
  }

  /** Which predicates compile, source by source. */
  lemma CompilableExactly(p: Predicate, top: nat)
    ensures p.source == RegisterValue ==>
              (Compilable(p, top) <==>
                 p.registerName in {"cax", "cbx", "ccx", "cdx", "csi", "cdi", "cbp", "csp", "cip"} &&
                 p.operation in {Equal, NotEqual, Less, LessEqual, Greater, GreaterEqual} &&
                 p.value <= top)
    ensures p.source == ThreadId ==>
              (Compilable(p, top) <==>
                 p.registerName == "" && p.operation in {Equal, NotEqual} && p.value < 0x1_0000_0000)
    ensures p.source == HitCount ==>
              (Compilable(p, top) <==> p.registerName == "" && 0 < p.value < 0x1_0000_0000)
  {}

  /** Constants are written without leading zeros. */
  lemma {:induction false} NoLeadingZero(value: nat)
    ensures HexDigits(value)[0] == '0' <==> value == 0
  {
    if value >= 16 {
      NoLeadingZero(value / 16);
    }
  }

  // ---- Size ----------------------------------------------------------------------------------

  function Power16(k: nat): nat {
    if k == 0 then 1 else 16 * Power16(k - 1)
  }

  lemma {:induction false} HexIsShort(value: nat, k: nat)
    requires k > 0 && value < Power16(k)
    ensures |HexDigits(value)| <= k
  {
    if value >= 16 {
      assert Power16(1) == 16;
      HexIsShort(value / 16, k - 1);
    }
  }

  lemma Powers()
    ensures Power16(8) == MAX_U32 + 1 && Power16(16) == MAX_U64 + 1
  {
    assert Power16(2) == 0x100;
    assert Power16(4) == 0x1_0000;
    assert Power16(6) == 0x100_0000;
    assert Power16(8) == 0x1_0000_0000;
    assert Power16(10) == 0x100_0000_0000;
    assert Power16(12) == 0x1_0000_0000_0000;
    assert Power16(14) == 0x100_0000_0000_0000;
  }

  lemma TermIsShort(p: Predicate, top: nat)
    requires Compilable(p, top) && top <= MAX_U64
    ensures |TermText(p)| <= 36
  {
    hide HexDigits, Power16;
    Powers();
    HexIsShort(p.value, if p.source == RegisterValue then 16 else 8);
    assert p.source == RegisterValue ==> |p.registerName| == 3;
  }

  lemma {:induction false} JoinedIsShort(mode: Mode, predicates: seq<Predicate>, top: nat)
    requires top <= MAX_U64
    requires forall i | 0 <= i < |predicates| :: Compilable(predicates[i], top)
    ensures predicates != [] ==> |Joined(mode, predicates)| <= 38 * |predicates| - 2
  {
    hide TermText, Compilable;
    if predicates != [] {
      TermIsShort(predicates[0], top);
      JoinedIsShort(mode, predicates[1..], top);
    }
  }

  // ---- Reading the text back -----------------------------------------------------------------

  datatype Read<+T> = Failed | Read(value: T, rest: string)

  predicate StartsWith(s: string, prefix: string) {
    |prefix| <= |s| && s[..|prefix|] == prefix
  }

  /** The text after a fixed prefix. */
  function Expect(s: string, prefix: string): Read<()> {
    if StartsWith(s, prefix) then Read((), s[|prefix|..]) else Failed
  }

  function HexValueOf(c: char): Option<nat> {
    if '0' <= c <= '9' then Some(c as int - '0' as int)
    else if 'a' <= c <= 'f' then Some(c as int - 'a' as int + 10)
    else None
  }

  function HexRun(s: string): (n: nat)
    ensures n <= |s|
    ensures forall i | 0 <= i < n :: HexValueOf(s[i]).Some?
  {
    if s == "" || HexValueOf(s[0]).None? then 0 else 1 + HexRun(s[1..])
  }

  function Number(digits: string): nat
    requires forall i | 0 <= i < |digits| :: HexValueOf(digits[i]).Some?
  {
    if digits == "" then 0
    else Number(digits[..|digits| - 1]) * 16 + HexValueOf(digits[|digits| - 1]).value
  }

  function ReadConstant(s: string): Read<nat> {
    if !StartsWith(s, "0x") || HexRun(s[2..]) == 0 then Failed
    else
      var n := HexRun(s[2..]);
      Read(Number(s[2..][..n]), s[2..][n..])
  }

  datatype Operand = Operand(source: Source, name: string)

  function ReadSource(s: string): Read<Operand> {
    if StartsWith(s, "tid()") then Read(Operand(ThreadId, ""), s[5..])
    else if StartsWith(s, "$breakpointcounter") then Read(Operand(HitCount, ""), s[18..])
    else if |s| >= 3 && PortableRegister(s[..3]) then Read(Operand(RegisterValue, s[..3]), s[3..])
    else Failed
  }

  function ReadOperator(s: string): Read<Operator> {
    if StartsWith(s, "==") then Read(Equal, s[2..])
    else if StartsWith(s, "!=") then Read(NotEqual, s[2..])
    else if StartsWith(s, "<=") then Read(LessEqual, s[2..])
    else if StartsWith(s, ">=") then Read(GreaterEqual, s[2..])
    else if StartsWith(s, "<") then Read(Less, s[1..])
    else if StartsWith(s, ">") then Read(Greater, s[1..])
    else if StartsWith(s, "%") then Read(MultipleOf, s[1..])
    else Failed
  }

  /** `source operator constant` followed by `closing`. */
  function ReadComparison(s: string, closing: string): Read<Predicate> {
    var source := ReadSource(s);
    if source.Failed? then Failed
    else
      var operation := ReadOperator(source.rest);
      if operation.Failed? then Failed
      else
        var constant := ReadConstant(operation.rest);
        if constant.Failed? then Failed
        else
          var end := Expect(constant.rest, closing);
          if end.Failed? then Failed
          else
            Read(Predicate(source.value.source, operation.value, source.value.name,
                           constant.value), end.rest)
  }

  /** `((a % b)==0)` or `(a op b)`. */
  function ReadTerm(s: string): Read<Predicate> {
    if StartsWith(s, "((") then
      var r := ReadComparison(s[2..], ")==0)");
      if r.Read? && r.value.operation == MultipleOf then r else Failed
    else if StartsWith(s, "(") then
      var r := ReadComparison(s[1..], ")");
      if r.Read? && r.value.operation != MultipleOf then r else Failed
    else Failed
  }

  /** A term's value; a remainder by zero has none. */
  function Value(p: Predicate, d: Debuggee): Option<bool> {
    if p.operation == MultipleOf && p.value == 0 then None
    else Some(Compares(Observed(p.source, p.registerName, d), p.operation, p.value))
  }

  /** Terms joined by `&&`, as far as they go. */
  function ReadConjunction(s: string, d: Debuggee): Read<bool>
    decreases |s|
  {
    var term := ReadTerm(s);
    if term.Failed? || Value(term.value, d).None? then Failed
    else
      var first := Value(term.value, d).value;
      if StartsWith(term.rest, "&&") && |term.rest| < |s| then
        var others := ReadConjunction(term.rest[2..], d);
        if others.Failed? then Failed else Read(first && others.value, others.rest)
      else Read(first, term.rest)
  }

  /** Conjunctions joined by `||`, up to the end of the text. */
  function Evaluate(s: string, d: Debuggee): Option<bool>
    decreases |s|
  {
    var first := ReadConjunction(s, d);
    if first.Failed? then None
    else if first.rest == "" then Some(first.value)
    else if StartsWith(first.rest, "||") && |first.rest| < |s| then
      var others := Evaluate(first.rest[2..], d);
      if others.None? then None else Some(first.value || others.value)
    else None
  }

  // ---- Meaning is preserved ------------------------------------------------------------------

  lemma DigitReads(n: nat)
    requires n < 16
    ensures HexValueOf(Digit(n)) == Some(n)
  {
  }

  lemma {:induction false} HexReads(value: nat)
    ensures forall i | 0 <= i < |HexDigits(value)| :: HexValueOf(HexDigits(value)[i]).Some?
    ensures Number(HexDigits(value)) == value
  {
    var s := HexDigits(value);
    if value < 16 {
      DigitReads(value);
      assert s[..0] == "" && Number("") == 0;
    } else {
      HexReads(value / 16);
      DigitReads(value % 16);
      assert s[..|s| - 1] == HexDigits(value / 16);
    }
  }

  lemma {:induction false} RunReads(digits: string, rest: string)
    requires forall i | 0 <= i < |digits| :: HexValueOf(digits[i]).Some?
    requires rest != "" && HexValueOf(rest[0]).None?
    ensures HexRun(digits + rest) == |digits|
  {
    if digits == "" {
      assert digits + rest == rest;
    } else {
      RunReads(digits[1..], rest);
      assert (digits + rest)[1..] == digits[1..] + rest;
    }
  }

  lemma ConstantReads(value: nat, rest: string)
    requires rest != "" && HexValueOf(rest[0]).None?
    ensures ReadConstant(HexConstant(value) + rest) == Read(value, rest)
  {
    hide HexDigits, HexRun, Number;
    var digits := HexDigits(value);
    var s := HexConstant(value) + rest;
    HexReads(value);
    RunReads(digits, rest);
    assert s[..2] == "0x";
    assert s[2..] == digits + rest;
    assert (digits + rest)[..|digits|] == digits && (digits + rest)[|digits|..] == rest;
  }

  lemma SourceReads(p: Predicate, top: nat, rest: string)
    requires Compilable(p, top)
    ensures ReadSource(SourceText(p) + rest) == Read(Operand(p.source, p.registerName), rest)
  {
    var s := SourceText(p) + rest;
    match p.source {
      case RegisterValue =>
        assert |p.registerName| == 3 && p.registerName[0] == 'c';
        assert s[..3] == p.registerName && s[3..] == rest;
        assert s[0] == 'c';
      case ThreadId =>
        assert s[..5] == "tid()" && s[5..] == rest;
      case HitCount =>
        assert s[..18] == "$breakpointcounter" && s[18..] == rest;
        assert s[0] == '$';
    }
  }

  lemma OperatorReads(operation: Operator, rest: string)
    requires rest != "" && rest[0] == '0'
    ensures ReadOperator(Token(operation) + rest) == Read(operation, rest)
  {
    var t := Token(operation);
    var s := t + rest;
    assert s[..|t|] == t && s[|t|..] == rest;
    if |t| == 1 {
      assert s[1] == '0';
    } else {
      assert s[0] == t[0] && s[1] == t[1];
    }
  }

  lemma ComparisonReads(p: Predicate, top: nat, closing: string, rest: string)
    requires Compilable(p, top) && closing != "" && closing[0] == ')'
    ensures ReadComparison(SourceText(p) + (Token(p.operation) +
                           (HexConstant(p.value) + (closing + rest))), closing) == Read(p, rest)
  {
    hide ReadSource, ReadOperator, ReadConstant, Token, SourceText, HexDigits;
    var constant := HexConstant(p.value) + (closing + rest);
    SourceReads(p, top, Token(p.operation) + constant);
    OperatorReads(p.operation, constant);
    ConstantReads(p.value, closing + rest);
    assert (closing + rest)[..|closing|] == closing && (closing + rest)[|closing|..] == rest;
  }

  lemma TermReads(p: Predicate, top: nat, rest: string)
    requires Compilable(p, top)
    ensures ReadTerm(TermText(p) + rest) == Read(p, rest)
  {
    hide ReadComparison, SourceText, HexConstant;
    var multiple := p.operation == MultipleOf;
    var opening := if multiple then "((" else "(";
    var closing := if multiple then ")==0)" else ")";
    var inside := SourceText(p) + (Token(p.operation) +
                                   (HexConstant(p.value) + (closing + rest)));
    assert TermText(p) + rest == opening + inside;
    ComparisonReads(p, top, closing, rest);
    var s := opening + inside;
    assert s[..|opening|] == opening && s[|opening|..] == inside;
    if !multiple {
      SourceStarts(p, top);
      assert s[1] == inside[0] == SourceText(p)[0];
    }
  }

  lemma SourceStarts(p: Predicate, top: nat)
    requires Compilable(p, top)
    ensures SourceText(p) != "" && SourceText(p)[0] != '('
  {
  }

  // The connective that joins terms, read back from in front of what follows it.
  lemma ConnectiveReads(mode: Mode, rest: string)
    ensures StartsWith(Connective(mode) + rest, Connective(mode))
    ensures (Connective(mode) + rest)[2..] == rest
    ensures !StartsWith(Connective(Any) + rest, "&&") && !StartsWith("", "&&")
  {
  }

  lemma TermHolds(p: Predicate, top: nat, d: Debuggee)
    requires Compilable(p, top)
    ensures Value(p, d) == Some(Holds(p, d))
  {
  }

  /** One term that no `&&` follows. */
  lemma OneTermReads(p: Predicate, top: nat, rest: string, d: Debuggee)
    requires Compilable(p, top) && !StartsWith(rest, "&&")
    ensures ReadConjunction(TermText(p) + rest, d) == Read(Holds(p, d), rest)
  {
    hide ReadTerm, TermText, Value, Holds, Compilable;
    TermReads(p, top, rest);
    TermHolds(p, top, d);
  }

  lemma {:induction false} AllMeans(predicates: seq<Predicate>, top: nat, d: Debuggee)
    requires predicates != []
    requires forall i | 0 <= i < |predicates| :: Compilable(predicates[i], top)
    ensures ReadConjunction(Joined(All, predicates), d) == Read(Meaning(All, predicates, d), "")
  {
    hide ReadTerm, TermText, Value, Holds, Compilable;
    var p := predicates[0];
    if |predicates| == 1 {
      ConnectiveReads(All, "");
      OneTermReads(p, top, "", d);
      assert TermText(p) + "" == TermText(p);
      MeaningSplits(All, predicates, d);
    } else {
      var tail := predicates[1..];
      TermReads(p, top, Connective(All) + Joined(All, tail));
      TermHolds(p, top, d);
      TermNotEmpty(p);
      ConnectiveReads(All, Joined(All, tail));
      AllMeans(tail, top, d);
      MeaningSplits(All, predicates, d);
    }
  }

  lemma {:induction false} AnyMeans(predicates: seq<Predicate>, top: nat, d: Debuggee)
    requires predicates != []
    requires forall i | 0 <= i < |predicates| :: Compilable(predicates[i], top)
    ensures Evaluate(Joined(Any, predicates), d) == Some(Meaning(Any, predicates, d))
  {
    hide ReadConjunction, TermText, Holds, Compilable;
    var p := predicates[0];
    MeaningSplits(Any, predicates, d);
    if |predicates| == 1 {
      ConnectiveReads(Any, "");
      OneTermReads(p, top, "", d);
      assert TermText(p) + "" == TermText(p);
    } else {
      var tail := predicates[1..];
      ConnectiveReads(Any, Joined(Any, tail));
      OneTermReads(p, top, Connective(Any) + Joined(Any, tail), d);
      TermNotEmpty(p);
      AnyMeans(tail, top, d);
    }
  }

  lemma TermNotEmpty(p: Predicate)
    ensures TermText(p) != ""
  {
  }

  lemma MeaningSplits(mode: Mode, predicates: seq<Predicate>, d: Debuggee)
    requires predicates != []
    ensures Meaning(mode, predicates, d) ==
            var first, others := Holds(predicates[0], d), Meaning(mode, predicates[1..], d);
            if mode == All then first && others else first || others
  {
    hide Holds;
    var tail := predicates[1..];
    assert forall i | 0 <= i < |tail| :: tail[i] == predicates[i + 1];
    forall i | 0 < i < |predicates| ensures predicates[i] == tail[i - 1] {}
  }

  /**
    For every accepted specification and every state of the debuggee the compiled text, read with
    `&&` binding tighter than `||`, evaluates without ever dividing by zero to what the predicates
    mean.
   */
  lemma CompilationPreservesMeaning(spec: Spec, top: nat, d: Debuggee)
    requires Accepted(spec, top)
    ensures Evaluate(Compiled(spec), d) == Some(Meaning(spec.mode, spec.predicates, d))
  {
    if spec.mode == All {
      AllMeans(spec.predicates, top, d);
    } else {
      AnyMeans(spec.predicates, top, d);
    }
    hide Meaning, ReadConjunction;
  }
}
