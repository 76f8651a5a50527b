/**
  Answers of crates/server/src/ipc_adapter.rs: what a plugin response turns into, how the answer of
  a mutation is recorded in the operation ledger, and what a replay decodes. JSON text is not
  modelled; recorded answers are JSON values.
 */
module Recorded {
  import opened Options

  datatype Value =
    | Null
    | Bool(b: bool)
    | Number(n: int)
    | Text(s: string)
    | Array(items: seq<Value>)
    | Object(fields: map<string, Value>)

  /** Indexing by key: absent fields and non-objects read as null. */
  function Field(v: Value, key: string): Value {
    if v.Object? && key in v.fields then v.fields[key] else Null
  }

  datatype Execution = Suggested | RequiredBeforeRetry | Manual

  datatype NextAction = NextAction(
    code: string,
    execution: Execution,
    reason: string,
    tool: Option<string>,
    arguments: Option<Value>,
    argumentsPatch: Option<Value>,
    preserveArguments: seq<string>)

  datatype ToolError = ToolError(
    code: string,
    message: string,
    recoverable: bool,
    safeToRetry: bool,
    suggestedAction: Option<string>,
    nextActions: seq<NextAction>,
    details: Value)

  datatype Outcome = Ok(result: Value) | Err(error: ToolError)

  // ---- Stable codes --------------------------------------------------------------------------

  const STABLE_CODES: set<string> := {
    "INVALID_ARGUMENT", "INVALID_DEBUGGER_STATE", "NO_DEBUGGEE", "NOT_FOUND", "ALREADY_EXISTS",
    "CONFLICT", "RESOURCE_EXHAUSTED", "ACCESS_DENIED", "BUSY", "TIMEOUT", "STALE_CURSOR",
    "OUTPUT_LIMIT_EXCEEDED", "CANCELLED", "UNSUPPORTED", "SCYLLAHIDE_NOT_INSTALLED",
    "SCYLLAHIDE_CONFIG_INVALID", "PROFILE_NOT_FOUND", "CONFIG_GENERATION_MISMATCH",
    "PROFILE_WRITE_FAILED"}

  function StableErrorCode(code: string): string {
    if code in STABLE_CODES then code else "INTERNAL"
  }

  predicate Stable(code: string) {
    StableErrorCode(code) == code
  }

  // ---- Serialized next actions ---------------------------------------------------------------

  function ExecutionName(e: Execution): string {
    match e
    case Suggested => "suggested"
    case RequiredBeforeRetry => "required_before_retry"
    case Manual => "manual"
  }

  function Strings(texts: seq<string>): seq<Value> {
    seq(|texts|, i requires 0 <= i < |texts| => Text(texts[i]))
  }

  /** A field that is left out when there is nothing to put in it. */
  function Put(fields: map<string, Value>, key: string, v: Option<Value>): map<string, Value> {
    if v.None? then fields else fields[key := v.value]
  }

  function ToolName(tool: Option<string>): Option<Value> {
    if tool.None? then None else Some(Text(tool.value))
  }

  function Preserved(texts: seq<string>): Option<Value> {
    if texts == [] then None else Some(Array(Strings(texts)))
  }

  /** Absent options and an empty list are left out of the object. */
  function EncodeAction(a: NextAction): Value {
    Object(
      Put(Put(Put(Put(
        map["code" := Text(a.code), "execution" := Text(ExecutionName(a.execution)),
            "reason" := Text(a.reason)],
        "tool", ToolName(a.tool)),
        "arguments", a.arguments),
        "argumentsPatch", a.argumentsPatch),
        "preserveArguments", Preserved(a.preserveArguments)))
  }

  function DecodeExecution(v: Value): Option<Execution> {
    if v == Text("suggested") then Some(Suggested)
    else if v == Text("required_before_retry") then Some(RequiredBeforeRetry)
    else if v == Text("manual") then Some(Manual)
    else None
  }

  // A missing field and an explicit null both read as an absent option.
  function DecodeOptional(v: Value): Option<Value> {
    if v == Null then None else Some(v)
  }

  function DecodeTexts(items: seq<Value>): Option<seq<string>> {
    if items == [] then Some([])
    else if !items[0].Text? || DecodeTexts(items[1..]).None? then None
    else Some([items[0].s] + DecodeTexts(items[1..]).value)
  }

  function DecodePreserved(v: Value): Option<seq<string>> {
    if !v.Object? then None
    else if "preserveArguments" !in v.fields then Some([])
    else if !v.fields["preserveArguments"].Array? then None
    else DecodeTexts(v.fields["preserveArguments"].items)
  }

  function DecodeAction(v: Value): Option<NextAction> {
    var code, reason, tool := Field(v, "code"), Field(v, "reason"), Field(v, "tool");
    var execution, preserved := DecodeExecution(Field(v, "execution")), DecodePreserved(v);
    if !code.Text? || !reason.Text? || execution.None? || preserved.None? ||
       !(tool == Null || tool.Text?) then None
    else
      Some(NextAction(code.s, execution.value, reason.s,
                      if tool == Null then None else Some(tool.s),
                      DecodeOptional(Field(v, "arguments")),
                      DecodeOptional(Field(v, "argumentsPatch")), preserved.value))
  }

  function EncodeActions(actions: seq<NextAction>): seq<Value> {
    if actions == [] then [] else [EncodeAction(actions[0])] + EncodeActions(actions[1..])
  }

  function DecodeItems(items: seq<Value>): Option<seq<NextAction>> {
    if items == [] then Some([])
    else
      var first, rest := DecodeAction(items[0]), DecodeItems(items[1..]);
      if first.None? || rest.None? then None else Some([first.value] + rest.value)
  }

  /** A list that cannot be read is replaced by the empty one. */
  function DecodeActions(v: Value): seq<NextAction> {
    if v.Array? && DecodeItems(v.items).Some? then DecodeItems(v.items).value else []
  }

  // ---- The recorded answer -------------------------------------------------------------------

  function EncodeRecorded(outcome: Outcome): Value {
    match outcome
    case Ok(result) => Object(map["ok" := Bool(true), "result" := result])
    case Err(e) =>
      Object(map[
        "ok" := Bool(false),
        "error" := Object(map[
          "code" := Text(e.code),
          "message" := Text(e.message),
          "recoverable" := Bool(e.recoverable),
          "safe_to_retry" := Bool(e.safeToRetry),
          "suggested_action" := if e.suggestedAction.None? then Null
                                else Text(e.suggestedAction.value),
          "next_actions" := Array(EncodeActions(e.nextActions)),
          "details" := e.details])])
  }

  const REPLAYED := "replayed debugger operation result"

  function DecodeRecorded(v: Value): Outcome {
    if Field(v, "ok") == Bool(true) then Ok(Field(v, "result"))
    else
      var error := Field(v, "error");
      var code, action := Field(error, "code"), Field(error, "suggested_action");
      Err(ToolError(
        StableErrorCode(if code.Text? then code.s else "INTERNAL"),
        REPLAYED,
        Field(error, "recoverable") == Bool(true),
        Field(error, "safe_to_retry") == Bool(true),
        if action.Text? then Some(action.s) else None,
        DecodeActions(Field(error, "next_actions")),
        Field(error, "details")))
  }

  /** The same answer under the fixed replay message. */
  function Replayed(outcome: Outcome): Outcome {
    match outcome
    case Ok(_) => outcome
    case Err(e) => Err(e.(message := REPLAYED))
  }

  // An explicit null does not survive as an option.
  predicate Faithful(a: NextAction) {
    a.arguments != Some(Null) && a.argumentsPatch != Some(Null)
  }

  predicate Recordable(outcome: Outcome) {
    outcome.Err? ==>
      Stable(outcome.error.code) &&
      forall i | 0 <= i < |outcome.error.nextActions| :: Faithful(outcome.error.nextActions[i])
  }

  function Normalized(a: NextAction): NextAction {
    a.(arguments := if a.arguments == Some(Null) then None else a.arguments,
       argumentsPatch := if a.argumentsPatch == Some(Null) then None else a.argumentsPatch)
  }

  function NormalizedAll(actions: seq<NextAction>): seq<NextAction> {
    if actions == [] then [] else [Normalized(actions[0])] + NormalizedAll(actions[1..])
  }

  lemma {:induction false} TextsReadBack(texts: seq<string>)
    ensures DecodeTexts(Strings(texts)) == Some(texts)
  {
    if texts != [] {
      TextsReadBack(texts[1..]);
      assert Strings(texts)[1..] == Strings(texts[1..]);
      assert [texts[0]] + texts[1..] == texts;
    }
  }

  function Lookup(fields: map<string, Value>, key: string): Option<Value> {
    if key in fields then Some(fields[key]) else None
  }

  lemma LookupAfterPut(fields: map<string, Value>, key: string, v: Option<Value>, other: string)
    ensures Lookup(Put(fields, key, v), other) ==
            if other == key && v.Some? then v else Lookup(fields, other)
  {}

  /** What each field of a serialized action holds. */
  lemma EncodedFields(a: NextAction, key: string)
    ensures Lookup(EncodeAction(a).fields, key) ==
            if key == "preserveArguments" then Preserved(a.preserveArguments)
            else if key == "argumentsPatch" then a.argumentsPatch
            else if key == "arguments" then a.arguments
            else if key == "tool" then ToolName(a.tool)
            else if key == "reason" then Some(Text(a.reason))
            else if key == "execution" then Some(Text(ExecutionName(a.execution)))
            else if key == "code" then Some(Text(a.code))
            else None
  {
    hide Put, ToolName, Preserved, ExecutionName;
    var first := map["code" := Text(a.code), "execution" := Text(ExecutionName(a.execution)),
                     "reason" := Text(a.reason)];
    var second := Put(first, "tool", ToolName(a.tool));
    var third := Put(second, "arguments", a.arguments);
    var fourth := Put(third, "argumentsPatch", a.argumentsPatch);
    LookupAfterPut(first, "tool", ToolName(a.tool), key);
    LookupAfterPut(second, "arguments", a.arguments, key);
    LookupAfterPut(third, "argumentsPatch", a.argumentsPatch, key);
    LookupAfterPut(fourth, "preserveArguments", Preserved(a.preserveArguments), key);
  }

  lemma ExecutionReadsBack(e: Execution)
    ensures DecodeExecution(Text(ExecutionName(e))) == Some(e)
  {}

  lemma ActionReadsBack(a: NextAction)
    ensures DecodeAction(EncodeAction(a)) == Some(Normalized(a))
  {
    var v := EncodeAction(a);
    EncodedFields(a, "code");
    EncodedFields(a, "execution");
    EncodedFields(a, "reason");
    EncodedFields(a, "tool");
    EncodedFields(a, "arguments");
    EncodedFields(a, "argumentsPatch");
    EncodedFields(a, "preserveArguments");
    TextsReadBack(a.preserveArguments);
    ExecutionReadsBack(a.execution);
    assert v.Object?;
    hide EncodeAction, Strings, DecodeTexts, DecodeExecution, ExecutionName;
    assert DecodePreserved(v) == Some(a.preserveArguments);
  }

  lemma {:induction false} ActionsReadBack(actions: seq<NextAction>)
    ensures DecodeItems(EncodeActions(actions)) == Some(NormalizedAll(actions))
  {
    hide EncodeAction, DecodeAction;
    if actions != [] {
      ActionReadsBack(actions[0]);
      ActionsReadBack(actions[1..]);
      assert EncodeActions(actions)[1..] == EncodeActions(actions[1..]);
    }
  }

  lemma {:induction false} NormalizedExactly(actions: seq<NextAction>)
    ensures NormalizedAll(actions) == actions <==>
            forall i | 0 <= i < |actions| :: Faithful(actions[i])
  {
    if actions != [] {
      NormalizedExactly(actions[1..]);
      assert [actions[0]] + actions[1..] == actions;
      assert forall i | 0 <= i < |actions| - 1 :: actions[1..][i] == actions[i + 1];
      if NormalizedAll(actions) == actions {
        assert NormalizedAll(actions)[1..] == actions[1..];
        forall i | 0 <= i < |actions| ensures Faithful(actions[i]) {
          assert i > 0 ==> actions[i] == actions[1..][i - 1];
        }
      }
    }
  }

  /**
    A replay differs from the recorded answer in the message only, exactly when the error code is a
    stable one and no next action carries an explicit null.
   */
  lemma ReplayIsFaithfulExactly(outcome: Outcome)
    ensures DecodeRecorded(EncodeRecorded(outcome)) == Replayed(outcome) <==> Recordable(outcome)
  {
    hide EncodeActions, DecodeItems, NormalizedAll, StableErrorCode;
    if outcome.Err? {
      var e := outcome.error;
      ActionsReadBack(e.nextActions);
      NormalizedExactly(e.nextActions);
      var v := EncodeRecorded(outcome);
      assert Field(v, "ok") == Bool(false);
      var error := Field(v, "error");
      assert Field(error, "next_actions") == Array(EncodeActions(e.nextActions));
      var replay := DecodeRecorded(v);
      assert replay.error.nextActions == NormalizedAll(e.nextActions);
      assert replay.error.code == StableErrorCode(e.code);
    }
  }

  // ---- Plugin responses ----------------------------------------------------------------------

  datatype Body = Result(result: Value)
                | Error(code: string, message: string, retryable: bool, details: Value)

  /** What of the call decides the guidance: is it a mutation, is it a launch of a .pif file? */
  datatype Kind = Kind(mutation: bool, pifLaunch: bool)

  const REFRESH: NextAction := NextAction(
    "REFRESH_DEBUGGER_STATE", RequiredBeforeRetry,
    "Observe the current debugger state before another mutation.",
    Some("debugger.state"), Some(Object(map[])), None, [])

  const INSPECT: NextAction := NextAction(
    "REFRESH_DEBUGGER_STATE", Suggested,
    "Inspect the current debugger state before choosing the next operation.",
    Some("debugger.state"), Some(Object(map[])), None, [])

  datatype Advice = CopyToExe | Reconcile | RestartQuery | LaunchFirst | CheckState | NoAdvice

  function AdviceFor(e: ToolError, kind: Kind): Advice {
    if e.code == "TIMEOUT" && kind.pifLaunch then CopyToExe
    else if kind.mutation && Field(e.details, "outcome") == Text("unknown") then Reconcile
    else if e.code == "STALE_CURSOR" then RestartQuery
    else if e.code == "NO_DEBUGGEE" then LaunchFirst
    else if e.code == "INVALID_DEBUGGER_STATE" then CheckState
    else NoAdvice
  }

  function AdviceText(advice: Advice): string {
    match advice
    case CopyToExe => "Rename a hash-identical analysis copy to .exe, record its provenance, " +
                      "and try again."
    case Reconcile => "Reconcile current debugger state before deciding whether to issue another " +
                      "mutation."
    case RestartQuery => "Restart the bounded discovery query without the stale cursor."
    case LaunchFirst => "Launch a binary or attach to a process before calling this tool."
    case CheckState => "Call debugger.state and satisfy the tool's required state before retrying."
    case NoAdvice => ""
  }

  function Guided(e: ToolError, kind: Kind): ToolError {
    var advice := AdviceFor(e, kind);
    if advice == NoAdvice then e
    else
      e.(suggestedAction := Some(AdviceText(advice)),
         nextActions := if advice == Reconcile then [REFRESH]
                        else if advice == CheckState then [INSPECT] else e.nextActions)
  }

  function Details(message: string, details: Value): Value {
    if details.Object? then Object(details.fields["debugger_message" := Text(message)])
    else Object(map["debugger_message" := Text(message), "debugger_details" := details])
  }

  function OutcomeOf(body: Body, kind: Kind): Outcome {
    match body
    case Result(result) => Ok(result)
    case Error(code, message, retryable, details) =>
      var stable := StableErrorCode(code);
      Err(Guided(ToolError(stable, "debugger rejected the operation",
                           retryable || !(stable == "INTERNAL" || stable == "UNSUPPORTED"),
                           !kind.mutation && retryable, None, [], Details(message, details)),
                 kind))
  }

  lemma CodesAreStable(code: string)
    ensures Stable(StableErrorCode(code))
  {}

  /** Guidance leaves the code alone, never offers a retry, and adds only plain next actions. */
  lemma GuidanceIsPlain(e: ToolError, kind: Kind)
    ensures Guided(e, kind).code == e.code && Guided(e, kind).safeToRetry == e.safeToRetry
    ensures Guided(e, kind).nextActions in {e.nextActions, [REFRESH], [INSPECT]}
    ensures Faithful(REFRESH) && Faithful(INSPECT)
  {
    hide AdviceFor, AdviceText;
  }

  /** Every answer a plugin response can lead to replays faithfully, and no mutation says retry. */
  lemma PluginAnswersReplay(body: Body, kind: Kind)
    ensures Recordable(OutcomeOf(body, kind))
    ensures DecodeRecorded(EncodeRecorded(OutcomeOf(body, kind))) == Replayed(OutcomeOf(body, kind))
    ensures OutcomeOf(body, kind).Err? && kind.mutation ==>
              !OutcomeOf(body, kind).error.safeToRetry
  {
    hide EncodeRecorded, DecodeRecorded, Guided, StableErrorCode, Details, Stable;
    if body.Error? {
      CodesAreStable(body.code);
      var stable := StableErrorCode(body.code);
      GuidanceIsPlain(
        ToolError(stable, "debugger rejected the operation",
                  body.retryable || !(stable == "INTERNAL" || stable == "UNSUPPORTED"),
                  !kind.mutation && body.retryable, None, [],
                  Details(body.message, body.details)), kind);
    }
    ReplayIsFaithfulExactly(OutcomeOf(body, kind));
  }
}
