/**
  What the calls of crates/server/src/ipc_adapter.rs end in, in every interleaving: the answer of the
  plugin, field by field, or the failure that came first; and when that is safe to retry.
 */
module CallAnswers {
  import opened Options
  import opened Recorded
  import opened Ledger
  import opened Ipc
  import opened Admissions
  import opened CallResults

  // ---- The plugin's answer -------------------------------------------------------------------

  /** The details of the plugin's error, with its message among them. */
  ghost predicate CarriesMessage(details: Value, message: string, given: Value) {
    && details.Object?
    && "debugger_message" in details.fields
    && details.fields["debugger_message"] == Text(message)
    && (given.Object? ==>
          forall key | key != "debugger_message" ::
            (key in details.fields <==> key in given.fields) &&
            (key in given.fields ==> details.fields[key] == given.fields[key]))
    && (!given.Object? ==> details.fields.Keys == {"debugger_message", "debugger_details"} &&
                           details.fields["debugger_details"] == given)
  }

  const COPY_TO_EXE := "Rename a hash-identical analysis copy to .exe, record its provenance, " +
                       "and try again."
  const RECONCILE := "Reconcile current debugger state before deciding whether to issue another " +
                     "mutation."
  const RESTART_QUERY := "Restart the bounded discovery query without the stale cursor."
  const LAUNCH_FIRST := "Launch a binary or attach to a process before calling this tool."
  const CHECK_STATE := "Call debugger.state and satisfy the tool's required state before retrying."

  /** What a caller is told to do about an error, in the order in which it matters. */
  predicate Guides(e: ToolError, given: Value, kind: Kind) {
    if e.code == "TIMEOUT" && kind.pifLaunch then
      && e.suggestedAction == Some(COPY_TO_EXE)
      && e.nextActions == []
    else if kind.mutation && Field(given, "outcome") == Text("unknown") then
      && e.suggestedAction == Some(RECONCILE)
      && e.nextActions == [NextAction(
           "REFRESH_DEBUGGER_STATE", RequiredBeforeRetry,
           "Observe the current debugger state before another mutation.",
           Some("debugger.state"), Some(Object(map[])), None, [])]
    else if e.code == "STALE_CURSOR" then
      && e.suggestedAction == Some(RESTART_QUERY)
      && e.nextActions == []
    else if e.code == "NO_DEBUGGEE" then
      && e.suggestedAction == Some(LAUNCH_FIRST)
      && e.nextActions == []
    else if e.code == "INVALID_DEBUGGER_STATE" then
      && e.suggestedAction == Some(CHECK_STATE)
      && e.nextActions == [NextAction(
           "REFRESH_DEBUGGER_STATE", Suggested,
           "Inspect the current debugger state before choosing the next operation.",
           Some("debugger.state"), Some(Object(map[])), None, [])]
    else e.suggestedAction == None && e.nextActions == []
  }

  /** The outcome of a call is what the plugin answered. */
  ghost predicate Reflects(o: Outcome, body: Body, kind: Kind) {
    match body
    case Result(result) => o == Ok(result)
    case Error(code, message, retryable, details) =>
      && o.Err?
      && o.error.code == (if code in STABLE_CODES then code else "INTERNAL")
      && o.error.message == "debugger rejected the operation"
      && (o.error.recoverable <==> retryable || o.error.code !in {"INTERNAL", "UNSUPPORTED"})
      && (o.error.safeToRetry <==> !kind.mutation && retryable)
      && CarriesMessage(o.error.details, message, details)
      && Guides(o.error, details, kind)
  }

  lemma DetailsCarry(message: string, given: Value)
    ensures CarriesMessage(Details(message, given), message, given)
    ensures Field(Details(message, given), "outcome") == Field(given, "outcome")
  {}

  // The fields of an error that guidance leaves alone, and those it sets.
  lemma GuidedGuides(e: ToolError, given: Value, kind: Kind)
    requires Field(e.details, "outcome") == Field(given, "outcome")
    requires e.suggestedAction == None && e.nextActions == []
    ensures var g := Guided(e, kind);
            && g == e.(suggestedAction := g.suggestedAction, nextActions := g.nextActions)
            && Guides(g, given, kind)
  {}

  lemma OutcomeReflects(body: Body, kind: Kind)
    ensures Reflects(OutcomeOf(body, kind), body, kind)
  {
    if body.Error? {
      var Error(code, message, retryable, details) := body;
      DetailsCarry(message, details);
      var stable := StableErrorCode(code);
      GuidedGuides(ToolError(stable, "debugger rejected the operation",
                             retryable || !(stable == "INTERNAL" || stable == "UNSUPPORTED"),
                             !kind.mutation && retryable, None, [], Details(message, details)),
                   details, kind);
      hide Guided, Guides, Details, CarriesMessage;
    }
  }

  // ---- How a call ends -----------------------------------------------------------------------

  /** The one step that ends a call, and what it ends in. */
  ghost predicate EndsWith(m: Machine, s: Step, c: nat, final: Final)
    requires c in m.calls
  {
    var call := m.calls[c];
    || (s == CheckReady(c) && call.phase.Admitted? && !m.ready && final == Failed(NotReady))
    || (s == TimeOut(c) && call.phase in {Waiting, Holding, Reading} &&
        final == Failed(DeadlinePassed))
    || (s == Finish(c) && call.phase.Broken? && final == Failed(ConnectionLost))
    || (s == Finish(c) && call.phase.Answered? && call.phase.response.request != c &&
        final == Failed(Mismatched))
    || (s == Finish(c) && call.phase.Answered? && call.phase.response.request == c &&
        final.Answer? && Reflects(final.outcome, call.phase.response.body,
                                  Kind(call.op.Some?, call.pifLaunch)))
  }

  lemma FinishEndsWith(m: Machine, c: nat)
    requires LedgerInv(m.entries, m.calls) && Enabled(m, Finish(c))
    ensures var after := Next(m, Finish(c)).calls;
            && c in after && after[c].phase.Done?
            && EndsWith(m, Finish(c), c, after[c].phase.final)
  {
    var call := m.calls[c];
    assert Unfinished(call) ==> Owns(m.entries, call.op.value);
    if call.phase.Answered? {
      OutcomeReflects(call.phase.response.body, KindOf(call));
    }
    hide LedgerInv, OutcomeOf, EncodeRecorded, Reflects, Remembered, Released, Settled;
  }

  lemma EndStep(m: Machine, s: Step, c: nat)
    requires LedgerInv(m.entries, m.calls) && c in m.calls && !m.calls[c].phase.Done?
    ensures c in Next(m, s).calls
    ensures Next(m, s).calls[c].phase.Done? ==>
              EndsWith(m, s, c, Next(m, s).calls[c].phase.final)
  {
    hide Reflects, OutcomeOf, EncodeRecorded, Remembered, Released, Settled, Abandoned, Begun;
    hide Stops, Consumed, AnswersInv, InFlightIsClaimed, OneUnfinishedPerId, NextFinish, EndsWith;
    OthersStay(m, s, c);
    if s == Finish(c) {
      if Enabled(m, s) {
        FinishEndsWith(m, c);
      }
    } else {
      if Next(m, s).calls[c].phase.Done? {
        OtherEndStep(m, s, c);
      }
    }
  }

  lemma OtherEndStep(m: Machine, s: Step, c: nat)
    requires LedgerInv(m.entries, m.calls) && c in m.calls && !m.calls[c].phase.Done?
    requires s != Finish(c)
    requires c in Next(m, s).calls && Next(m, s).calls[c].phase.Done?
    ensures EndsWith(m, s, c, Next(m, s).calls[c].phase.final)
  {
    hide LedgerInv, Reflects, Remembered, Released, SettledIn, Abandoned, NextBegin, NextFinish;
    hide Stops, Consumed, NextReply;
    UnfinishedOwns(m, c);
    OthersStay(m, s, c);
  }

  lemma UnfinishedOwns(m: Machine, c: nat)
    requires LedgerInv(m.entries, m.calls) && c in m.calls
    ensures Unfinished(m.calls[c]) ==> Owns(m.entries, m.calls[c].op.value)
  {
    hide AnswersInv, InFlightIsClaimed, OneUnfinishedPerId;
  }

  /** A call that was refused at once, for which see AdmissionAnswers. */
  predicate Refused(final: Final) {
    final.Repeated? ||
    (final.Failed? && final.failure in {Busy, OutcomeIsUnknown, IdConflict, LedgerFull})
  }

  lemma RefusedStep(m: Machine, s: Step, c: nat)
    requires c !in m.calls && c in Next(m, s).calls && Next(m, s).calls[c].phase.Done?
    ensures Refused(Next(m, s).calls[c].phase.final) && Next(m, s).calls[c].op.Some?
  {
    hide DecodeRecorded, Begun;
  }

  /**
    In every run, a call that is done was refused at once, or was ended by one step: by the plugin's
    answer to its own request, by somebody else's response, by a broken connection, by its deadline,
    or because the adapter was not ready when it had been admitted.
   */
  lemma {:induction false} EndsExactly(steps: seq<Step>, c: nat) returns (n: nat)
    requires c in After(steps).calls && After(steps).calls[c].phase.Done?
    ensures var call := After(steps).calls[c];
            (Refused(call.phase.final) && call.op.Some?) ||
            (n < |steps| && c in After(steps[..n]).calls &&
             After(steps[..n]).calls[c].op == call.op &&
             EndsWith(After(steps[..n]), steps[n], c, call.phase.final))
  {
    hide Next, LedgerInv, EndsWith, Refused;
    n := 0;
    var last := |steps| - 1;
    var before := steps[..last];
    var m := After(before);
    LedgerAfter(before);
    if c !in m.calls {
      RefusedStep(m, steps[last], c);
    } else if m.calls[c].phase.Done? {
      OthersStay(m, steps[last], c);
      n := EndsExactly(before, c);
      if n < last {
        assert before[..n] == steps[..n];
      }
    } else {
      EndStep(m, steps[last], c);
      OthersStay(m, steps[last], c);
      n := last;
    }
  }

  // ---- Readiness and retries -----------------------------------------------------------------

  predicate LostTouch(call: Call) {
    call.phase.Done? && call.phase.final.Failed? &&
    call.phase.final.failure in {ConnectionLost, DeadlinePassed, Mismatched}
  }

  lemma ReadyStep(m: Machine, s: Step)
    requires m.ready <==> forall c | c in m.calls :: !LostTouch(m.calls[c])
    ensures Next(m, s).ready <==> forall c | c in Next(m, s).calls :: !LostTouch(Next(m, s).calls[c])
  {
    hide LostTouch, Next;
    forall c { OthersStay(m, s, c); }
    if Mover(s).Some? {
      ReadyMove(m, s, Mover(s).value);
    } else {
      ReadyIdle(m, s);
    }
  }

  lemma ReadyIdle(m: Machine, s: Step)
    requires Mover(s).None?
    ensures Next(m, s).ready == m.ready && Next(m, s).calls == m.calls
  {}

  lemma ReadyMove(m: Machine, s: Step, c: nat)
    requires Mover(s) == Some(c)
    ensures var after := Next(m, s);
            && (c in m.calls ==> c in after.calls)
            && ((c in after.calls && LostTouch(after.calls[c]) && !after.ready) ||
                (after.ready == m.ready &&
                 (c in after.calls ==>
                    (LostTouch(after.calls[c]) <==> c in m.calls && LostTouch(m.calls[c])))))
  {
    hide OutcomeOf, EncodeRecorded, DecodeRecorded, Remembered, Released, Settled, Abandoned, Begun;
    hide Stops, Consumed, Removable, Touching;
  }

  /** The adapter is ready as long as no call has lost touch with the plugin. */
  lemma {:induction false} ReadyExactly(steps: seq<Step>)
    ensures var m := After(steps); m.ready <==> forall c | c in m.calls :: !LostTouch(m.calls[c])
  {
    hide Next, LostTouch;
    if steps != [] {
      ReadyExactly(steps[..|steps| - 1]);
      ReadyStep(After(steps[..|steps| - 1]), steps[|steps| - 1]);
    }
  }

  /**
    Which ends are safe to retry. Of a mutation only those that come before anything is written; of
    a read also those that lose touch, and the errors that the plugin calls retryable.
   */
  lemma SafeExactly(steps: seq<Step>, c: nat)
    requires c in After(steps).calls && After(steps).calls[c].phase.Done?
    ensures var call := After(steps).calls[c];
            var final := call.phase.final;
            && (call.op.Some? ==>
                  (SafeToRetry(final, true) <==>
                     final in {Failed(Busy), Failed(LedgerFull), Failed(NotReady)}))
            && (call.op.None? ==>
                  (SafeToRetry(final, false) <==>
                     final == Failed(NotReady) || LostTouch(call) ||
                     (final.Answer? && final.outcome.Err? && final.outcome.error.safeToRetry)))
  {
    hide After, EndsWith;
    var call := After(steps).calls[c];
    var n := EndsExactly(steps, c);
    if call.phase.final.Repeated? {
      var earlier := RepeatedFrom(steps, c);
      AnswersAreUnsafe(steps, earlier);
    } else if call.phase.final.Answer? {
      AnswersAreUnsafe(steps, c);
    }
    if !(Refused(call.phase.final) && call.op.Some?) {
      EndIsNoRefusal(After(steps[..n]), steps[n], c, call.phase.final);
    }
  }

  lemma EndIsNoRefusal(m: Machine, s: Step, c: nat, final: Final)
    requires c in m.calls && EndsWith(m, s, c, final)
    ensures !Refused(final)
    ensures final.Failed? ==>
              final.failure in {NotReady, DeadlinePassed, ConnectionLost, Mismatched}
  {
    hide Reflects;
  }

  lemma RepeatedFrom(steps: seq<Step>, c: nat) returns (earlier: nat)
    requires c in After(steps).calls
    requires After(steps).calls[c].phase.Done? && After(steps).calls[c].phase.final.Repeated?
    ensures var m := After(steps);
            && earlier in m.calls && m.calls[earlier].op == m.calls[c].op
            && m.calls[earlier].phase.Done? && m.calls[earlier].phase.final.Answer?
            && m.calls[c].phase.final.outcome == Replayed(m.calls[earlier].phase.final.outcome)
  {
    hide After, Replayed;
    RepeatsAnAnswer(steps, c);
    var m := After(steps);
    earlier :| earlier in m.calls && m.calls[earlier].op == m.calls[c].op &&
               m.calls[earlier].phase.Done? && m.calls[earlier].phase.final.Answer? &&
               m.calls[c].phase.final.outcome == Replayed(m.calls[earlier].phase.final.outcome);
  }

  // The answer to a mutation is never safe to retry.
  lemma AnswersAreUnsafe(steps: seq<Step>, c: nat)
    requires c in After(steps).calls
    requires After(steps).calls[c].phase.Done? && After(steps).calls[c].phase.final.Answer?
    ensures var call := After(steps).calls[c];
            call.op.Some? && call.phase.final.outcome.Err? ==>
              !call.phase.final.outcome.error.safeToRetry
  {
    hide After;
    var n := EndsExactly(steps, c);
  }
}
